/** `get_github_activity` of `github_activity.py`: the events of a user, as
    GitHub's events endpoint returns them, turned into display records. The
    request is a parameter: the function takes what `urlopen` produced. */
module Activity {
  import opened Wrappers
  import opened Text
  import opened Timestamp

  /** The `repo` object of an event; `name` is `None` when the key is missing. */
  datatype RepoRef = RepoRef(name: Option<string>)

  /** The `payload` object: the `commits` list of a push (only its length is
      used) and the `action` of an issue event. */
  datatype Payload = Payload(commits: Option<seq<string>>, action: Option<string>)

  /** One event object; `None` for a missing key. */
  datatype Event = Event(kind: Option<string>, repo: Option<RepoRef>,
                         createdAt: Option<string>, payload: Option<Payload>)

  /** The dictionary built per event: `tipo`, `repositorio`, `datahora`, `descricao`. */
  datatype Entry = Entry(kind: string, repository: string, dateTime: string, description: string)

  /** What `json.loads` made of a non-blank body: not JSON at all; a falsy
      value (`[]`, `{}`, `null`, `false`, `0`, `""`); a non-empty list of
      event objects; or a truthy value the loop cannot read (a dict, a number,
      a list holding something other than objects), which raises. */
  datatype Decoded = NotJson(detail: string) | Falsy | EventList(events: seq<Event>) | Unreadable(detail: string)

  /** What `urlopen` produced: a response with its status, its text and the
      decoding of that text; an `HTTPError`; or any other exception. */
  datatype EventsResponse =
    | Reply(status: nat, text: string, decoded: Decoded)
    | HttpError(code: nat, reason: string)
    | Failed(detail: string)

  /** The exceptions `get_github_activity` raises. */
  datatype ActivityError =
    | UserNotFound                       // ValueError
    | ApiError(code: nat, reason: string) // Exception("Erro da API: ...")
    | OtherError(detail: string)          // Exception("Ocorreu um erro: ...")

  const NotFoundMessage: string := "Usuário não encontrado."

  function Message(e: ActivityError): string {
    match e
    case UserNotFound => NotFoundMessage
    case ApiError(code, reason) => "Erro da API: HTTP Error " + NatToDecimal(code) + ": " + reason
    case OtherError(detail) => "Ocorreu um erro: " + detail
  }

  const DefaultKind: string := "Evento"
  const UnknownRepository: string := "repositório desconhecido"
  const DefaultAction: string := "realizou uma ação"

  function CommitCount(p: Option<Payload>): nat {
    match p
    case None => 0
    case Some(pl) => |pl.commits.GetOr([])|
  }

  function ActionOf(p: Option<Payload>): string {
    match p
    case None => DefaultAction
    case Some(pl) => pl.action.GetOr(DefaultAction)
  }

  function RepoName(r: Option<RepoRef>): string {
    match r
    case None => UnknownRepository
    case Some(ref) => ref.name.GetOr(UnknownRepository)
  }

  /** The `descricao` text for an event of type `kind` on repository `repo`.
      Whatever the type, it ends with the repository name. */
  function Describe(kind: string, repo: string, payload: Option<Payload>): (d: string)
    ensures |d| >= |repo| && d[|d| - |repo|..] == repo
  {
    var d :=
      if kind == "PushEvent" then "Pushed " + NatToDecimal(CommitCount(payload)) + " commits to " + repo
      else if kind == "IssuesEvent" then Capitalize(ActionOf(payload)) + " uma issue em " + repo
      else if kind == "WatchEvent" then "Starred " + repo
      else kind + " em " + repo;
    assert d[|d| - |repo|..] == repo;
    d
  }

  /** One loop iteration: the record for one event. Type and repository are
      copied with their defaults, and the description ends with the
      repository. */
  function FormatEvent(e: Event): (r: Entry)
    ensures r.kind == e.kind.GetOr(DefaultKind)
    ensures r.repository == RepoName(e.repo)
    ensures r.dateTime == DisplayTime(e.createdAt)
    ensures |r.description| >= |r.repository|
            && r.description[|r.description| - |r.repository|..] == r.repository
  {
    var kind := e.kind.GetOr(DefaultKind);
    var repo := RepoName(e.repo);
    Entry(kind, repo, DisplayTime(e.createdAt), Describe(kind, repo, e.payload))
  }

  /** A push reports its number of commits in decimal, which reads back as
      the length of `payload.commits` (0 when missing). */
  lemma PushDescription(e: Event)
    requires e.kind == Some("PushEvent")
    ensures exists n :: && 1 <= |n| && AllDigits(n) && (|n| > 1 ==> n[0] != '0')
                        && DecimalValue(n) == CommitCount(e.payload)
                        && FormatEvent(e).description == "Pushed " + n + " commits to " + RepoName(e.repo)
  {
    var n := NatToDecimal(CommitCount(e.payload));
    assert FormatEvent(e).description == "Pushed " + n + " commits to " + RepoName(e.repo);
  }

  /** An issue event starts with its action, capitalized: the same length,
      no lower-case first letter, no upper-case letter after it. */
  lemma IssuesDescription(e: Event)
    requires e.kind == Some("IssuesEvent")
    ensures var a := ActionOf(e.payload);
            var d := FormatEvent(e).description;
            && d == Capitalize(a) + " uma issue em " + RepoName(e.repo)
            && (|a| > 0 ==> !IsLower(d[0]))
            && forall i :: 0 < i < |a| ==> !IsUpper(d[i])
  {
  }

  /** A star reads "Starred R"; any type other than push, issues and star
      reads "T em R", with the type as given or "Evento" when missing. */
  lemma OtherDescriptions(e: Event)
    ensures var k := e.kind.GetOr(DefaultKind);
            var d := FormatEvent(e).description;
            && (k == "WatchEvent" ==> d == "Starred " + RepoName(e.repo))
            && (k != "PushEvent" && k != "IssuesEvent" && k != "WatchEvent" ==> d == k + " em " + RepoName(e.repo))
  {
  }

  /** An event with no fields at all gets every default. */
  lemma EmptyEventDefaults()
    ensures FormatEvent(Event(None, None, None, None))
            == Entry(DefaultKind, UnknownRepository, "Data desconhecida", DefaultKind + " em " + UnknownRepository)
  {
  }

  /** An issue event whose action is in lower case, as GitHub sends
      "opened" or "closed", gets only the first letter raised. */
  lemma IssuesLowerCaseAction(e: Event)
    requires e.kind == Some("IssuesEvent")
    requires var a := ActionOf(e.payload); |a| > 0 && forall i :: 0 < i < |a| ==> !IsUpper(a[i])
    ensures var a := ActionOf(e.payload);
            FormatEvent(e).description == [ToUpper(a[0])] + a[1..] + " uma issue em " + RepoName(e.repo)
  {
    CapitalizeOfLowerTail(ActionOf(e.payload));
  }

  /** Capitalizing a string with no upper-case letter after its first
      character only changes that character. */
  lemma CapitalizeOfLowerTail(a: string)
    requires |a| > 0
    requires forall i :: 0 < i < |a| ==> !IsUpper(a[i])
    ensures Capitalize(a) == [ToUpper(a[0])] + a[1..]
  {
    var c := Capitalize(a);
    assert forall i :: 0 < i < |a| ==> c[i] == a[i];
  }

  /** `get_github_activity`: one record per event, in order; `[]` for a
      blank or falsy body; `UserNotFound` exactly for an HTTP 404; every other
      failure is a generic error. */
  method GetGithubActivity(resp: EventsResponse) returns (r: Result<seq<Entry>, ActivityError>)
    ensures r == Failure(UserNotFound) <==> resp.HttpError? && resp.code == 404
    ensures resp.HttpError? && resp.code != 404 ==> r == Failure(ApiError(resp.code, resp.reason))
    ensures resp.Failed? ==> r == Failure(OtherError(resp.detail))
    ensures resp.Reply? && resp.status != 200 ==>
              r == Failure(OtherError("Erro ao buscar dados: " + NatToDecimal(resp.status)))
    ensures r.Success? <==> && resp.Reply? && resp.status == 200
                            && (IsBlank(resp.text) || resp.decoded.Falsy? || resp.decoded.EventList?)
    ensures resp.Reply? && resp.status == 200 && (IsBlank(resp.text) || resp.decoded.Falsy?) ==>
              r == Success([])
    ensures resp.Reply? && resp.status == 200 && !IsBlank(resp.text)
            && (resp.decoded.NotJson? || resp.decoded.Unreadable?) ==>
              r == Failure(OtherError(resp.decoded.detail))
    ensures resp.Reply? && resp.status == 200 && !IsBlank(resp.text) && resp.decoded.EventList? ==>
              && r.Success?
              && |r.value| == |resp.decoded.events|
              && forall i :: 0 <= i < |r.value| ==> r.value[i] == FormatEvent(resp.decoded.events[i])
  {
    match resp
    case HttpError(code, reason) =>
      if code == 404 {
        return Failure(UserNotFound);
      }
      return Failure(ApiError(code, reason));
    case Failed(detail) =>
      return Failure(OtherError(detail));
    case Reply(status, text, decoded) =>
      if status != 200 {
        return Failure(OtherError("Erro ao buscar dados: " + NatToDecimal(status)));
      }
      if Strip(text) == [] {
        return Success([]);
      }
      match decoded
      case NotJson(detail) =>
        return Failure(OtherError(detail));
      case Unreadable(detail) =>
        return Failure(OtherError(detail));
      case Falsy =>
        return Success([]);
      case EventList(events) =>
        var activities := FormatEvents(events, FormatEvent);
        return Success(activities);
  }

  /** The loop of `get_github_activity`: one record per event, in order.
      The record of one event is `format`, which `GetGithubActivity` sets to
      `FormatEvent`. */
  method FormatEvents(events: seq<Event>, format: Event -> Entry) returns (activities: seq<Entry>)
    ensures |activities| == |events|
    ensures forall i :: 0 <= i < |events| ==> activities[i] == format(events[i])
  {
    activities := [];
    var i := 0;
    while i < |events|
      invariant 0 <= i <= |events|
      invariant |activities| == i
      invariant forall k :: 0 <= k < i ==> activities[k] == format(events[k])
    {
      activities := activities + [format(events[i])];
      i := i + 1;
    }
  }

  /** Only a 404 produces the message "Usuário não encontrado."; the generic
      errors carry other texts. */
  lemma NotFoundMessageIsDistinct(e: ActivityError)
    requires e != UserNotFound
    ensures Message(e) != NotFoundMessage
  {
    match e
    case ApiError(code, reason) =>
      assert Message(e)[0] == 'E';
    case OtherError(detail) =>
      assert Message(e)[0] == 'O';
  }
}
