/** The records the application persists and passes between views, with
    optional fields as `Option`. Numbers that the source treats as counts
    are `nat`/`int`; hours and attribute scores are `real`. */
module Types {
  import opened Wrappers

  datatype MilestoneStatus = Completed | Pending | LongTerm | Missed

  datatype Category = Adventure | Travel | Skill

  /** A long-term goal; `estimatedAge` is the age at which it is planned. */
  datatype Milestone = Milestone(
    id: string,
    title: string,
    date: Option<string>,
    status: MilestoneStatus,
    category: Option<Category>,
    description: Option<string>,
    timeCapsuleUrl: Option<string>,
    duration: Option<string>,
    imageUrl: Option<string>,
    estimatedAge: Option<int>)

  /** A recurring habit; `lastCompleted` is an ISO timestamp. */
  datatype DailyTask = DailyTask(
    id: string,
    title: string,
    completed: bool,
    streak: nat,
    lastCompleted: Option<string>)

  datatype ArchiveStatus = ArchivedCompleted | ArchivedAborted

  /** A habit after archival; never changed afterwards. */
  datatype DailyTaskHistory = DailyTaskHistory(
    id: string,
    title: string,
    status: ArchiveStatus,
    timestamp: string,
    finalStreak: nat)

  datatype TagType = GrowthTag | InsightTag | MindfulnessTag | CustomTag

  datatype Tag = Tag(text: string, kind: TagType)

  /** A journal entry; `voiceData` may be an `idb://` blob reference. */
  datatype LogEntry = LogEntry(
    id: string,
    time: string,
    date: string,
    content: string,
    hasVoice: Option<bool>,
    voiceData: Option<string>,
    duration: Option<string>,
    images: Option<seq<string>>,
    tags: seq<Tag>,
    isHighlight: Option<bool>)

  datatype LetterStatus = LetterNone | LetterEncrypted | LetterOpen

  /** The single time-locked letter. */
  datatype FutureLetter = FutureLetter(
    content: string,
    targetDate: string,
    createdAt: string,
    decryptionKey: Option<string>,
    status: LetterStatus)

  datatype UserProfile = UserProfile(name: string, avatarUrl: Option<string>)

  datatype Language = English | TraditionalChinese

  datatype ExpectancyPreset = CustomPreset | AveragePreset | HealthyPreset

  datatype ProgressBarStyle = LinearBar | OrbitBar | HourglassBar

  datatype Anniversary = Anniversary(id: string, name: string, date: string)

  datatype UserSettings = UserSettings(
    language: Language,
    birthDate: string,
    birthTime: string,
    lifeExpectancyPreset: ExpectancyPreset,
    customLifeExpectancy: int,
    sleepOffset: real,
    todaySleepTime: real,
    todayWorkTime: real,
    workStart: string,
    workEnd: string,
    decimalPrecision: int,
    progressBarStyle: ProgressBarStyle,
    soundEnabled: bool,
    gravityEnabled: bool,
    anniversaries: seq<Anniversary>)

  /** The six derived engagement scores. */
  datatype CoreAttributes = CoreAttributes(
    health: real,
    mind: real,
    skill: real,
    social: real,
    adventure: real,
    spirit: real)

  datatype UserAnalytics = UserAnalytics(
    attributes: CoreAttributes,
    moodStability: real,
    focusScore: int,
    booksRead: nat)

  datatype ToastType = InfoToast | SuccessToast | WarningToast

  datatype NotificationHistoryEntry = NotificationHistoryEntry(
    id: string,
    message: string,
    kind: ToastType,
    timestamp: string)

  /** An account in the local users list (`chronos_users_list`). */
  datatype LocalUser = LocalUser(
    name: string,
    email: string,
    password: string,
    morseCode: Option<string>)

  /** Binary payload held by the blob store. */
  type Blob = seq<bv8>
}
