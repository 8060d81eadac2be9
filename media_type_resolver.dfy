/**
 * Resolution of a file's media type from its path, and the fallback combinator `orElse`.
 * A concrete resolver's table of extensions is not part of this model: a resolver is any
 * pair of answer functions.
 */
module FileMediaTypes {
  import opened Wrappers

  /** A media type such as `text/plain`; its structure plays no part here. */
  datatype MediaType = MediaType(mediaType: string, subtype: string)

  /** The answer of the first resolver when it has one, otherwise that of the second. */
  function FirstNonNull(first: Option<MediaType>, second: Option<MediaType>): (r: Option<MediaType>)
    ensures first.Some? ==> r == first
    ensures first.None? ==> r == second
    ensures r.None? <==> first.None? && second.None?
  {
    if first.Some? then first else second
  }

  /**
   * A resolver. Resolvers are objects: `orElse` compares them by identity. The answers are
   * fixed when the resolver is created; `None` stands for a `null` answer.
   */
  class MediaTypeResolver {
    const guess: string -> Option<MediaType>
    const guessWithEncoding: (string, Option<string>) -> Option<MediaType>

    constructor (guess: string -> Option<MediaType>, guessWithEncoding: (string, Option<string>) -> Option<MediaType>)
      ensures this.guess == guess && this.guessWithEncoding == guessWithEncoding
    {
      this.guess := guess;
      this.guessWithEncoding := guessWithEncoding;
    }

    /** `guessFromPath(path)`. */
    function GuessFromPath(path: string): (answer: Option<MediaType>) {
      guess(path)
    }

    /** `guessFromPath(path, contentEncoding)`, with `None` for a `null` encoding. */
    function GuessFromPathWithEncoding(path: string, contentEncoding: Option<string>): (answer: Option<MediaType>) {
      guessWithEncoding(path, contentEncoding)
    }

    /**
     * `orElse(other)`: a `null` other is rejected; a resolver combined with itself is returned
     * as it is; otherwise a new resolver answers as this one does when this one has an answer,
     * and as `other` does, for the same path and encoding, when it does not.
     */
    method OrElse(other: MediaTypeResolver?) returns (r: Result<MediaTypeResolver, string>)
      ensures other == null ==> r == Failure("other")
      ensures other != null ==> r.Success?
      ensures other == this ==> r == Success(this)
      ensures r.Success? && other != this ==> fresh(r.value)
      ensures r.Success? ==> forall path ::
                r.value.GuessFromPath(path) == FirstNonNull(GuessFromPath(path), other.GuessFromPath(path))
      ensures r.Success? ==> forall path, contentEncoding ::
                r.value.GuessFromPathWithEncoding(path, contentEncoding)
                == FirstNonNull(GuessFromPathWithEncoding(path, contentEncoding),
                                other.GuessFromPathWithEncoding(path, contentEncoding))
    {
      if other == null {
        return Failure("other");
      }
      if this == other {
        return Success(this);
      }
      var first: MediaTypeResolver := this;
      var second: MediaTypeResolver := other;
      var combined := new MediaTypeResolver(
        path => FirstNonNull(first.guess(path), second.guess(path)),
        (path, contentEncoding) => FirstNonNull(first.guessWithEncoding(path, contentEncoding),
                                                second.guessWithEncoding(path, contentEncoding)));
      r := Success(combined);
    }
  }

  /** A client: combining two resolvers, the second answers only the paths the first leaves open. */
  method FallbackExample(html: MediaType, octets: MediaType) returns (answers: seq<Option<MediaType>>)
    ensures answers == [Some(html), Some(octets)]
  {
    var byExtension := new MediaTypeResolver(
      path => if path == "index.html" then Some(html) else None,
      (path, contentEncoding) => None);
    var catchAll := new MediaTypeResolver(path => Some(octets), (path, contentEncoding) => Some(octets));
    var combined := byExtension.OrElse(catchAll);
    answers := [combined.value.GuessFromPath("index.html"), combined.value.GuessFromPath("data.bin")];
  }
}
