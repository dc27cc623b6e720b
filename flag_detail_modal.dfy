/** The detail overlay of one country: the status of its explanation fetch
    and which of spinner, error and body it shows. */
module FlagDetailModal {
  import opened Types
  import opened Explanation

  const FetchFailedMessage: string := "Failed to fetch flag details."

  /** One part of the overlay's right-hand column. */
  datatype Pane = Spinner | ErrorText(message: string) | Body(blocks: seq<Block>)

  class FlagDetail {
    const country: Country
    var explanation: string
    var isLoading: bool
    var error: Option<string>

    /** A fetch in flight has no error, and the only error is the fixed one. */
    ghost predicate Valid()
      reads this
    {
      (isLoading ==> error.None?) && (error.Some? ==> error.value == FetchFailedMessage)
    }

    /** The overlay mounts with an empty text, loading and no error. */
    constructor (country: Country)
      ensures Valid() && this.country == country
      ensures explanation == [] && isLoading && error == None
    {
      this.country := country;
      explanation := [];
      isLoading := true;
      error := None;
    }

    /** The synchronous part of `fetchExplanation`. Returns the name the
        explanation is requested for. */
    method BeginFetch() returns (request: string)
      requires Valid()
      modifies this
      ensures Valid() && request == country.name
      ensures isLoading && error == None && explanation == old(explanation)
    {
      isLoading := true;
      error := None;
      request := country.name;
    }

    /** The fetch settled: keep the text, or record the failure; either
        way stop loading. */
    method CompleteFetch(outcome: Settled<string>)
      requires Valid()
      modifies this
      ensures Valid() && !isLoading
      ensures outcome.Resolved? ==> explanation == outcome.value && error == old(error)
      ensures outcome.Rejected? ==> error == Some(FetchFailedMessage) && explanation == old(explanation)
    {
      match outcome {
        case Resolved(text) =>
          explanation := text;
        case Rejected(_) =>
          error := Some(FetchFailedMessage);
      }
      isLoading := false;
    }

    /** The panes rendered, in order: the spinner while loading, the error
        when it is truthy, the formatted body when neither. Exactly one is
        shown in every valid state. */
    function Panes(): (r: seq<Pane>)
      reads this
      ensures Valid() ==> |r| == 1
      ensures Valid() ==> (r[0] == Spinner <==> isLoading)
      ensures Valid() ==> (r[0] == ErrorText(FetchFailedMessage) <==> error.Some?)
      ensures Valid() ==> (r[0] == Body(FormattedExplanation(explanation)) <==> !isLoading && error.None?)
    {
      var errorShown := error.Some? && error.value != [];
      (if isLoading then [Spinner] else [])
      + (if errorShown then [ErrorText(error.value)] else [])
      + (if !isLoading && !errorShown then [Body(FormattedExplanation(explanation))] else [])
    }
  }
}
