/** The durable state behind the service and its request/response façade.
    Records live under endpoint names (`settings`, `milestones`, `logs`,
    `daily_tasks`, `daily_history`, `user_profile`, `future_letter`); the
    attribute snapshot, its last-sync time, the notification history, the
    blob store and the local users list are kept beside them, as the source
    keeps them under their own storage keys. The simulated latency is not
    modelled: every request completes at once. */
module RecordStore {
  import opened Wrappers
  import opened Types
  import Seed

  /** A JSON record of one of the shapes the endpoints hold. */
  datatype Value =
    | SettingsRecord(settings: UserSettings)
    | MilestonesRecord(milestones: seq<Milestone>)
    | LogsRecord(logs: seq<LogEntry>)
    | TasksRecord(tasks: seq<DailyTask>)
    | HistoryRecord(history: seq<DailyTaskHistory>)
    | ProfileRecord(profile: UserProfile)
    | LetterRecord(letter: FutureLetter)
    | NullRecord

  datatype HttpMethod = Get | Post | Put | OtherMethod(name: string)

  datatype Store = Store(
    records: map<string, Value>,
    attributes: Option<CoreAttributes>,
    lastSync: Option<int>,
    notifications: seq<NotificationHistoryEntry>,
    hasCallback: bool,
    blobs: map<string, Blob>,
    users: seq<LocalUser>)

  /** A store nothing has been written to. */
  const EmptyStore: Store := Store(map[], None, None, [], false, map[], [])

  const SettingsEndpoint := "settings"
  const MilestonesEndpoint := "milestones"
  const LogsEndpoint := "logs"
  const DailyTasksEndpoint := "daily_tasks"
  const DailyHistoryEndpoint := "daily_history"
  const UserProfileEndpoint := "user_profile"
  const FutureLetterEndpoint := "future_letter"

  /** What a GET returns for an endpoint that has never been written. */
  function Default(endpoint: string): Value {
    if endpoint == SettingsEndpoint then SettingsRecord(Seed.InitialSettings)
    else if endpoint == MilestonesEndpoint then MilestonesRecord(Seed.MockMilestones)
    else if endpoint == LogsEndpoint then LogsRecord(Seed.MockLogs)
    else if endpoint == DailyTasksEndpoint then TasksRecord([])
    else if endpoint == DailyHistoryEndpoint then HistoryRecord([])
    else if endpoint == UserProfileEndpoint then ProfileRecord(Seed.DefaultProfile)
    else NullRecord
  }

  /** GET: the last value written under `endpoint`, or its default. */
  function Read(s: Store, endpoint: string): (v: Value)
    ensures endpoint in s.records ==> v == s.records[endpoint]
    ensures endpoint !in s.records ==> v == Default(endpoint)
  {
    if endpoint in s.records then s.records[endpoint] else Default(endpoint)
  }

  /** POST/PUT: replaces the record under `endpoint`; nothing else changes. */
  function Write(s: Store, endpoint: string, v: Value): (r: Store)
    ensures r.records.Keys == s.records.Keys + {endpoint}
    ensures r == s.(records := r.records)
  {
    s.(records := s.records[endpoint := v])
  }

  /** `apiRequest(endpoint, {method, body})`: GET reads, POST and PUT write
      and echo the body, any other method is rejected. */
  function ApiRequest(s: Store, endpoint: string, verb: HttpMethod, body: Value): (r: Result<(Store, Value), string>)
    ensures verb.Get? ==> r.Success? && r.value.0 == s
    ensures (verb.Post? || verb.Put?) ==> r.Success? && r.value.1 == body
    ensures (verb.Post? || verb.Put?) ==> Read(r.value.0, endpoint) == body
    ensures verb.OtherMethod? ==> r.Failure?
  {
    match verb
    case Get => Success((s, Read(s, endpoint)))
    case Post => Success((Write(s, endpoint, body), body))
    case Put => Success((Write(s, endpoint, body), body))
    case OtherMethod(m) => Failure("Method " + m + " not implemented")
  }

  /** A write is read back unchanged. */
  lemma WriteThenRead(s: Store, endpoint: string, v: Value)
    ensures Read(Write(s, endpoint, v), endpoint) == v
  {
  }

  /** A write touches no other endpoint. */
  lemma WriteLeavesOthers(s: Store, endpoint: string, other: string, v: Value)
    requires other != endpoint
    ensures Read(Write(s, endpoint, v), other) == Read(s, other)
  {
  }

  /** Two writes touch no third endpoint, nor anything outside the
      records. */
  lemma TwoWritesLeaveOthers(s: Store, e1: string, v1: Value, e2: string, v2: Value)
    ensures Write(Write(s, e1, v1), e2, v2) == s.(records := Write(Write(s, e1, v1), e2, v2).records)
    ensures forall e :: e != e1 && e != e2 ==> Read(Write(Write(s, e1, v1), e2, v2), e) == Read(s, e)
  {
  }

  // The typed views after a write: the written value under its own
  // endpoint, the previous value under any other.

  lemma TasksAfterWrite(s: Store, e: string, v: Value)
    ensures e == DailyTasksEndpoint && v.TasksRecord? ==> Tasks(Write(s, e, v)) == v.tasks
    ensures e != DailyTasksEndpoint ==> Tasks(Write(s, e, v)) == Tasks(s)
  {
  }

  lemma HistoryAfterWrite(s: Store, e: string, v: Value)
    ensures e == DailyHistoryEndpoint && v.HistoryRecord? ==> History(Write(s, e, v)) == v.history
    ensures e != DailyHistoryEndpoint ==> History(Write(s, e, v)) == History(s)
  {
  }

  lemma LogsAfterWrite(s: Store, e: string, v: Value)
    ensures e == LogsEndpoint && v.LogsRecord? ==> Logs(Write(s, e, v)) == v.logs
    ensures e != LogsEndpoint ==> Logs(Write(s, e, v)) == Logs(s)
  {
  }

  lemma SettingsAfterWrite(s: Store, e: string, v: Value)
    ensures e == SettingsEndpoint && v.SettingsRecord? ==> Settings(Write(s, e, v)) == v.settings
    ensures e != SettingsEndpoint ==> Settings(Write(s, e, v)) == Settings(s)
  {
  }

  lemma MilestonesAfterWrite(s: Store, e: string, v: Value)
    ensures e == MilestonesEndpoint && v.MilestonesRecord? ==> Milestones(Write(s, e, v)) == v.milestones
    ensures e != MilestonesEndpoint ==> Milestones(Write(s, e, v)) == Milestones(s)
  {
  }

  lemma ProfileAfterWrite(s: Store, e: string, v: Value)
    ensures e == UserProfileEndpoint && v.ProfileRecord? ==> Profile(Write(s, e, v)) == v.profile
    ensures e != UserProfileEndpoint ==> Profile(Write(s, e, v)) == Profile(s)
  {
  }

  /** Reading a fresh store yields the per-endpoint seed values. */
  lemma FreshDefaults()
    ensures Read(EmptyStore, DailyTasksEndpoint) == TasksRecord([])
    ensures Read(EmptyStore, DailyHistoryEndpoint) == HistoryRecord([])
    ensures Read(EmptyStore, UserProfileEndpoint) == ProfileRecord(UserProfile("Chronos Pioneer", None))
    ensures Read(EmptyStore, SettingsEndpoint) == SettingsRecord(Seed.InitialSettings)
    ensures Read(EmptyStore, "unknown") == NullRecord
  {
  }

  // Typed views of the endpoints. Every write in this model stores the
  // shape its endpoint expects, so the fallbacks are never taken.

  function Settings(s: Store): UserSettings {
    match Read(s, SettingsEndpoint)
    case SettingsRecord(x) => x
    case _ => Seed.InitialSettings
  }

  function Milestones(s: Store): seq<Milestone> {
    match Read(s, MilestonesEndpoint)
    case MilestonesRecord(x) => x
    case _ => Seed.MockMilestones
  }

  function Logs(s: Store): seq<LogEntry> {
    match Read(s, LogsEndpoint)
    case LogsRecord(x) => x
    case _ => Seed.MockLogs
  }

  function Tasks(s: Store): seq<DailyTask> {
    match Read(s, DailyTasksEndpoint)
    case TasksRecord(x) => x
    case _ => []
  }

  function History(s: Store): seq<DailyTaskHistory> {
    match Read(s, DailyHistoryEndpoint)
    case HistoryRecord(x) => x
    case _ => []
  }

  function Profile(s: Store): UserProfile {
    match Read(s, UserProfileEndpoint)
    case ProfileRecord(x) => x
    case _ => Seed.DefaultProfile
  }
}
