/** The upstream calendar client: the mapping from the provider's decoded
    reply to `(date, status)` pairs, and the call itself as an object that
    records which ranges were requested. */
module EdfApi {
  import opened Wrappers
  import opened Server

  /** One day of the provider's calendar, as decoded from JSON. */
  datatype CalendarDay = CalendarDay(dateApplication: string, statut: string)

  /** One tariff option of the reply and its calendar. */
  datatype EdfApiOption = EdfApiOption(option: string, calendrier: seq<CalendarDay>)

  const TempoOptionName := "TEMPO"
  const TempoOptionMissing := "Option TEMPO non trouvée dans la réponse API"
  const UnknownStatutPrefix := "Statut inconnu: "
  const SendFailedMessage := "Erreur lors de l'appel à l'API EDF"
  const ParseFailedMessage := "Erreur lors du parsing de la réponse EDF"

  /** The first option named exactly "TEMPO", if any. */
  function FindTempoOption(options: seq<EdfApiOption>): (r: Option<EdfApiOption>)
    ensures r.None? <==> forall i :: 0 <= i < |options| ==> options[i].option != TempoOptionName
    ensures r.Some? ==> exists i :: 0 <= i < |options| && options[i] == r.value &&
                          r.value.option == TempoOptionName &&
                          forall j :: 0 <= j < i ==> options[j].option != TempoOptionName
  {
    if options == [] then None
    else if options[0].option == TempoOptionName then Some(options[0])
    else
      var r := FindTempoOption(options[1..]);
      assert forall i :: 0 < i < |options| ==> options[i] == options[1..][i - 1];
      r
  }

  /** The four literals the mapping recognises. */
  const StatutLiterals: set<string> := {"TEMPO_BLEU", "TEMPO_ROUGE", "TEMPO_BLANC", "NON_DEFINI"}

  /** The mapping of one `statut` literal: the four known literals are the
      wire names of the four statuses, anything else is an error naming it. */
  function ParseStatut(statut: string): (r: Result<TempoStatus>)
    ensures r.Ok? <==> statut in StatutLiterals
    ensures r.Ok? ==> WireName(r.value) == statut
    ensures r.Err? ==> r.error == UnknownStatutPrefix + statut
  {
    if statut == "TEMPO_BLEU" then Ok(TempoBleu)
    else if statut == "TEMPO_ROUGE" then Ok(TempoRouge)
    else if statut == "TEMPO_BLANC" then Ok(TempoBlanc)
    else if statut == "NON_DEFINI" then Ok(NonDefini)
    else Err(UnknownStatutPrefix + statut)
  }

  /** Parsing inverts serialisation: each status is read back from its wire
      name. */
  lemma ParseStatutOfWireName(s: TempoStatus)
    ensures ParseStatut(WireName(s)) == Ok(s)
  {
  }

  /** Day `i` is the first day of `days` whose literal is not recognised. */
  ghost predicate FirstUnknownAt(days: seq<CalendarDay>, i: int)
  {
    && 0 <= i < |days|
    && days[i].statut !in StatutLiterals
    && forall j :: 0 <= j < i ==> days[j].statut in StatutLiterals
  }

  /** Maps a whole calendar, stopping at the first unknown literal (an
      iterator of `Result`s collected into one `Result`). */
  function CollectCalendar(days: seq<CalendarDay>): (r: Result<Batch>)
    ensures r.Ok? <==> forall i :: 0 <= i < |days| ==> ParseStatut(days[i].statut).Ok?
    ensures r.Ok? ==> |r.value| == |days|
    ensures r.Ok? ==> forall i :: 0 <= i < |days| ==>
                        r.value[i] == (days[i].dateApplication, ParseStatut(days[i].statut).value)
    ensures r.Err? ==> exists i :: FirstUnknownAt(days, i) && r.error == UnknownStatutPrefix + days[i].statut
  {
    if days == [] then Ok([])
    else
      assert forall i :: 0 < i < |days| ==> days[i] == days[1..][i - 1];
      match ParseStatut(days[0].statut)
      case Err(e) => Err(e)
      case Ok(s) =>
        match CollectCalendar(days[1..])
        case Err(e) =>
          assert exists i :: FirstUnknownAt(days, i) && e == UnknownStatutPrefix + days[i].statut by {
            var k :| FirstUnknownAt(days[1..], k) && e == UnknownStatutPrefix + days[1..][k].statut;
            assert FirstUnknownAt(days, k + 1);
          }
          Err(e)
        case Ok(rest) => Ok([(days[0].dateApplication, s)] + rest)
  }

  /** The calendar of the TEMPO option, or the error for its absence. */
  function TempoCalendar(options: seq<EdfApiOption>): (r: Result<Batch>)
    ensures FindTempoOption(options).None? ==> r == Err(TempoOptionMissing)
    ensures FindTempoOption(options).Some? ==>
              r == CollectCalendar(FindTempoOption(options).value.calendrier)
  {
    match FindTempoOption(options)
    case None => Err(TempoOptionMissing)
    case Some(option) => CollectCalendar(option.calendrier)
  }

  /** A calendar of known literals comes back whole: same length, same order,
      dates copied verbatim, each status read from its literal. */
  lemma TempoCalendarKeepsDays(options: seq<EdfApiOption>, i: nat)
    requires i < |options| && options[i].option == TempoOptionName
    requires forall j :: 0 <= j < i ==> options[j].option != TempoOptionName
    requires forall k :: 0 <= k < |options[i].calendrier| ==>
               options[i].calendrier[k].statut in StatutLiterals
    ensures TempoCalendar(options).Ok?
    ensures |TempoCalendar(options).value| == |options[i].calendrier|
    ensures forall k :: 0 <= k < |options[i].calendrier| ==>
              TempoCalendar(options).value[k].0 == options[i].calendrier[k].dateApplication &&
              WireName(TempoCalendar(options).value[k].1) == options[i].calendrier[k].statut
  {
  }

  /** What the HTTP exchange yielded: no response at all, or a body that did
      or did not decode into the list of options. */
  datatype ApiReply = SendFailed | Received(decoded: Option<seq<EdfApiOption>>)

  /** The outcome of `fetch_tempo_calendar` for a given reply. */
  function FetchResult(reply: ApiReply): (r: Result<Batch>)
    ensures reply.SendFailed? ==> r == Err(SendFailedMessage)
    ensures reply.Received? && reply.decoded.None? ==> r == Err(ParseFailedMessage)
    ensures reply.Received? && reply.decoded.Some? ==> r == TempoCalendar(reply.decoded.value)
  {
    match reply
    case SendFailed => Err(SendFailedMessage)
    case Received(None) => Err(ParseFailedMessage)
    case Received(Some(options)) => TempoCalendar(options)
  }

  /** The upstream provider. `reply` is what it answers for a requested
      range; `calls` is the log of the ranges requested so far. */
  class EdfClient {
    const reply: (string, string) -> ApiReply
    ghost var calls: seq<(string, string)>

    constructor (reply: (string, string) -> ApiReply)
      ensures this.reply == reply && calls == []
    {
      this.reply := reply;
      calls := [];
    }

    /** `fetch_tempo_calendar(today, tomorrow)`: one request for the range,
        mapped to `(date, status)` pairs. */
    method FetchTempoCalendar(today: string, tomorrow: string) returns (r: Result<Batch>)
      modifies this
      ensures calls == old(calls) + [(today, tomorrow)]
      ensures r == FetchResult(reply(today, tomorrow))
    {
      calls := calls + [(today, tomorrow)];
      r := FetchResult(reply(today, tomorrow));
    }
  }
}
