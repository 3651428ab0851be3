/** The detail record the recommendation page shows for one movie, and the
    mapping from the movie database's answer to that record. The HTTP request
    itself is not modelled: its outcome is an input, either a transport failure
    or the decoded JSON payload as a map from field names to strings. */
module MovieDetails {

  /** The eight display fields; every one is always present. */
  datatype Detail = Detail(
    title: string,
    poster: string,
    plot: string,
    cast: string,
    director: string,
    genre: string,
    year: string,
    imdbRating: string)

  /** What the request to the movie database produced. */
  datatype Outcome = TransportError | Payload(data: map<string, string>)

  const PlaceholderPoster: string := "https://via.placeholder.com/500x750?text=No+Poster"
  const NoPlot: string := "No plot available."
  const NoPlotConnection: string := "No plot available due to connection error."
  const Unknown: string := "Unknown"
  const NotAvailable: string := "N/A"

  /** Dictionary lookup with a fallback value, as `dict.get(key, fallback)`. */
  function Get(data: map<string, string>, key: string, fallback: string): string
  {
    if key in data then data[key] else fallback
  }

  /** `value` is what the payload holds under `key`, or `fallback` when the key is absent. */
  predicate FieldOrDefault(data: map<string, string>, key: string, fallback: string, value: string)
  {
    (key in data && value == data[key]) || (key !in data && value == fallback)
  }

  /** The database answered "not found": the `Response` flag is absent or is "False". */
  predicate IsNotFound(data: map<string, string>)
  {
    Get(data, "Response", "False") == "False"
  }

  /** The payload has no usable poster: absent, empty or "N/A". */
  predicate PosterMissing(data: map<string, string>)
  {
    "Poster" !in data || data["Poster"] == "" || data["Poster"] == NotAvailable
  }

  /** The sentinel record used when no data is available for `title`. */
  function Fallback(title: string, plot: string): Detail
  {
    Detail(title, PlaceholderPoster, plot, Unknown, Unknown, NotAvailable, NotAvailable, NotAvailable)
  }

  /** The record built from a payload whose `Response` flag is not "False". */
  function FromPayload(title: string, data: map<string, string>): (d: Detail)
    ensures FieldOrDefault(data, "Title", title, d.title)
    ensures PosterMissing(data) ==> d.poster == PlaceholderPoster
    ensures !PosterMissing(data) ==> d.poster == data["Poster"]
    ensures FieldOrDefault(data, "Plot", NoPlot, d.plot)
    ensures FieldOrDefault(data, "Actors", Unknown, d.cast)
    ensures FieldOrDefault(data, "Director", Unknown, d.director)
    ensures FieldOrDefault(data, "Genre", NotAvailable, d.genre)
    ensures FieldOrDefault(data, "Year", NotAvailable, d.year)
    ensures FieldOrDefault(data, "imdbRating", NotAvailable, d.imdbRating)
  {
    var poster := Get(data, "Poster", "");
    Detail(
      Get(data, "Title", title),
      if poster == "" || poster == NotAvailable then PlaceholderPoster else poster,
      Get(data, "Plot", NoPlot),
      Get(data, "Actors", Unknown),
      Get(data, "Director", Unknown),
      Get(data, "Genre", NotAvailable),
      Get(data, "Year", NotAvailable),
      Get(data, "imdbRating", NotAvailable))
  }

  /** The detail record for `title` given what the request produced. */
  function FetchDetails(title: string, outcome: Outcome): (d: Detail)
    ensures outcome.TransportError? ==> d == Fallback(title, NoPlotConnection)
    ensures outcome.Payload? && IsNotFound(outcome.data) ==> d == Fallback(title, NoPlot)
    ensures outcome.Payload? && !IsNotFound(outcome.data) ==> d == FromPayload(title, outcome.data)
    ensures d.poster != "" && d.poster != NotAvailable
  {
    match outcome
    case TransportError => Fallback(title, NoPlotConnection)
    case Payload(data) =>
      if IsNotFound(data) then Fallback(title, NoPlot) else FromPayload(title, data)
  }

  /** A not-found answer yields the fixed sentinel record, whatever else the payload holds. */
  lemma NotFoundSentinel(title: string, data: map<string, string>)
    requires "Response" !in data || data["Response"] == "False"
    ensures var d := FetchDetails(title, Payload(data));
      d.title == title &&
      d.poster == "https://via.placeholder.com/500x750?text=No+Poster" &&
      d.plot == "No plot available." &&
      d.cast == "Unknown" && d.director == "Unknown" &&
      d.genre == "N/A" && d.year == "N/A" && d.imdbRating == "N/A"
  {
  }

  /** A transport failure yields the sentinel record with the connection-error plot. */
  lemma ConnectionErrorSentinel(title: string)
    ensures var d := FetchDetails(title, TransportError);
      d.title == title &&
      d.poster == "https://via.placeholder.com/500x750?text=No+Poster" &&
      d.plot == "No plot available due to connection error." &&
      d.cast == "Unknown" && d.director == "Unknown" &&
      d.genre == "N/A" && d.year == "N/A" && d.imdbRating == "N/A"
  {
  }

  /** For a found movie the poster is the placeholder exactly when the payload's
      poster is unusable or is itself the placeholder URL. */
  lemma PosterPlaceholderIff(title: string, data: map<string, string>)
    requires !IsNotFound(data)
    ensures FetchDetails(title, Payload(data)).poster == PlaceholderPoster
        <==> PosterMissing(data) || data["Poster"] == PlaceholderPoster
  {
  }

  /** Every field of every record is populated: when the queried title and the
      payload's values are non-empty, so are all eight fields. */
  lemma AllFieldsPopulated(title: string, outcome: Outcome)
    requires title != ""
    requires outcome.Payload? ==> forall k :: k in outcome.data ==> outcome.data[k] != ""
    ensures var d := FetchDetails(title, outcome);
      d.title != "" && d.poster != "" && d.plot != "" && d.cast != "" &&
      d.director != "" && d.genre != "" && d.year != "" && d.imdbRating != ""
  {
  }

  /** The two failure branches differ only in their plot text. */
  lemma FailureBranchesDifferInPlotOnly(title: string, data: map<string, string>)
    requires IsNotFound(data)
    ensures var notFound := FetchDetails(title, Payload(data));
      var offline := FetchDetails(title, TransportError);
      notFound != offline && notFound.(plot := offline.plot) == offline
  {
  }
}
