/** The journal screen (LogsView.tsx): the entry composer (recording
    time, tag choice, image attachments, saving) and the timeline (the
    page of entries shown, month headers, loading more, deleting). */
module LogsView {
  import opened Wrappers
  import opened Types
  import opened RecordStore
  import Text
  import Seqs
  import LogStore
  import Notifications
  import App
  import AttributeEngine

  /** `formatSeconds`: whole minutes, a colon, two-digit seconds. */
  function FormatSeconds(sec: nat): (r: string)
    ensures ':' in r
    ensures Text.AllDigits(r[..Text.IndexOf(r, ':')]) && Text.AllDigits(r[Text.IndexOf(r, ':') + 1..])
    ensures |r[Text.IndexOf(r, ':') + 1..]| == 2
  {
    var m := Text.NatToString(sec / 60);
    var s := Text.PadTwo(sec % 60);
    Text.IndexOfAfter(m, ':', s);
    assert (m + [':'] + s)[..|m|] == m && (m + [':'] + s)[|m| + 1..] == s;
    m + [':'] + s
  }

  /** Reads a `m:ss` duration back as seconds. */
  function ParseDuration(r: string): Option<nat> {
    if ':' !in r then None
    else
      var i := Text.IndexOf(r, ':');
      if Text.AllDigits(r[..i]) && Text.AllDigits(r[i + 1..])
      then Some(Text.ParseNat(r[..i]) * 60 + Text.ParseNat(r[i + 1..]))
      else None
  }

  /** The recorded duration is shown without loss. */
  lemma FormatSecondsRoundTrip(sec: nat)
    ensures ParseDuration(FormatSeconds(sec)) == Some(sec)
  {
    var m := Text.NatToString(sec / 60);
    var s := Text.PadTwo(sec % 60);
    Text.IndexOfAfter(m, ':', s);
    var r := m + [':'] + s;
    assert r[..|m|] == m && r[|m| + 1..] == s;
    Text.ParseNatToString(sec / 60);
    Text.ParsePadTwo(sec % 60);
  }

  /** Selected tags of one kind. */
  function CountKind(tags: seq<Tag>, k: TagType): (n: nat)
    ensures n <= |tags|
  {
    if |tags| == 0 then 0
    else CountKind(tags[..|tags| - 1], k) + (if tags[|tags| - 1].kind == k then 1 else 0)
  }

  /** The selection without any tag of the given kind, the rest kept in
      order. */
  function DropKind(tags: seq<Tag>, k: TagType): (r: seq<Tag>)
    ensures CountKind(r, k) == 0
    ensures forall k' :: k' != k ==> CountKind(r, k') == CountKind(tags, k')
    ensures CountKind(tags, k) == 0 ==> r == tags
  {
    if |tags| == 0 then []
    else
      var init := DropKind(tags[..|tags| - 1], k);
      var last := tags[|tags| - 1];
      if last.kind != k then
        assert (init + [last])[..|init + [last]| - 1] == init;
        init + [last]
      else init
  }

  /** At most one selected tag per kind. */
  predicate OnePerKind(tags: seq<Tag>) {
    forall k :: CountKind(tags, k) <= 1
  }

  /** `handleToggleTag`: removes the tag's kind when one is selected,
      otherwise appends the tag. */
  function ToggleTag(selected: seq<Tag>, tag: Tag): (r: seq<Tag>)
    ensures CountKind(selected, tag.kind) > 0 ==> CountKind(r, tag.kind) == 0
    ensures CountKind(selected, tag.kind) == 0 ==> r == selected + [tag]
    ensures forall k :: k != tag.kind ==> CountKind(r, k) == CountKind(selected, k)
    ensures OnePerKind(selected) ==> OnePerKind(r)
  {
    if CountKind(selected, tag.kind) > 0 then DropKind(selected, tag.kind)
    else
      var r := selected + [tag];
      assert r[..|r| - 1] == selected;
      r
  }

  /** Toggling a tag that is not selected twice gives the selection back. */
  lemma ToggleTagTwice(selected: seq<Tag>, tag: Tag)
    requires CountKind(selected, tag.kind) == 0
    ensures ToggleTag(ToggleTag(selected, tag), tag) == selected
  {
    var r := selected + [tag];
    assert r[..|r| - 1] == selected;
    assert DropKind(r, tag.kind) == DropKind(selected, tag.kind);
  }

  const ImagesPerBatch: nat := 2
  const MaxImages: nat := 4

  /** `handleFileChange`: the first two files of a batch are read and
      appended; only the first four images are kept. Files that fail to
      read are not in `batch`. */
  function AddImages(images: seq<string>, batch: seq<string>): (r: seq<string>)
    ensures |r| == Seqs.Min(|images| + Seqs.Min(|batch|, ImagesPerBatch), MaxImages)
    ensures |images| <= MaxImages ==> r[..|images|] == images
    ensures forall i :: |images| <= i < |r| ==> r[i] == batch[i - |images|]
  {
    Seqs.Take(images + Seqs.Take(batch, ImagesPerBatch), MaxImages)
  }

  /** Two batches of at most two images each are all kept; a third batch
      into a full set adds nothing. */
  lemma TwoBatchesFit(a: seq<string>, b: seq<string>, c: seq<string>)
    requires |a| <= ImagesPerBatch && |b| <= ImagesPerBatch
    ensures AddImages(AddImages([], a), b) == a + b
    ensures |a| == ImagesPerBatch && |b| == ImagesPerBatch ==> AddImages(a + b, c) == a + b
  {
    assert AddImages([], a) == a;
  }

  /** The remove button on image `i`. */
  function RemoveImage(images: seq<string>, i: nat): (r: seq<string>)
    ensures i < |images| ==> r == images[..i] + images[i + 1..]
    ensures i >= |images| ==> r == images
  {
    if i < |images| then images[..i] + images[i + 1..] else images
  }

  /** What the composer holds when the user saves. */
  datatype Draft = Draft(
    content: string,
    images: seq<string>,
    hasVoice: bool,
    voiceDataId: Option<string>,
    recordingSeconds: nat,
    selectedTags: seq<Tag>,
    isHighlight: bool,
    isUploading: bool)

  const DefaultTag: Tag := Tag("LOG_ENTRY", CustomTag)

  /** `handleSave`: nothing while uploading or for blank content;
      otherwise the entry as composed (content untrimmed), stamped with
      the clock readings. An empty image list, an empty voice id and an
      empty tag selection are left out, the last replaced by LOG_ENTRY. */
  function ComposeEntry(d: Draft, id: string, time: string, date: string): (r: Option<LogEntry>)
    ensures r.None? <==> Text.IsBlank(d.content) || d.isUploading
    ensures r.Some? ==> r.value.content == d.content && r.value.id == id && r.value.date == date
    ensures r.Some? ==> |r.value.tags| > 0 && (|d.selectedTags| > 0 ==> r.value.tags == d.selectedTags)
    ensures r.Some? ==> (r.value.images.Some? <==> |d.images| > 0)
    ensures r.Some? ==> r.value.hasVoice == Some(d.hasVoice) && r.value.isHighlight == Some(d.isHighlight)
    ensures r.Some? ==> (r.value.duration.Some? <==> d.hasVoice)
    ensures r.Some? && d.hasVoice ==> ParseDuration(r.value.duration.value) == Some(d.recordingSeconds)
    ensures r.Some? ==> (r.value.voiceData.Some? <==> d.voiceDataId.Some? && d.voiceDataId.value != "")
  {
    if |Text.Trim(d.content)| == 0 || d.isUploading then None
    else
      FormatSecondsRoundTrip(d.recordingSeconds);
      Some(LogEntry(
        id, time, date, d.content,
        Some(d.hasVoice),
        if d.voiceDataId.Some? && d.voiceDataId.value != "" then d.voiceDataId else None,
        if d.hasVoice then Some(FormatSeconds(d.recordingSeconds)) else None,
        if |d.images| > 0 then Some(d.images) else None,
        if |d.selectedTags| > 0 then d.selectedTags else [DefaultTag],
        Some(d.isHighlight)))
  }

  /** Saving a composed entry puts it at the head of the journal and
      grants adventure growth exactly when images are attached. */
  lemma SavedEntryLeadsJournal(s: Store, d: Draft, id: string, time: string, date: string, now: int)
    requires ComposeEntry(d, id, time, date).Some?
    ensures var e := ComposeEntry(d, id, time, date).value;
            Logs(SaveComposed(s, d, id, time, date, now))[0] == e
            && (AttributeEngine.Amount(LogStore.LogGrowth(e).adventure) > 0.0 <==> |d.images| > 0)
  {
  }

  /** Saving a composed entry as the screens are wired: the composer
      stores the entry through `addLog`, then hands the journal's list with
      the entry in front to the application's log handler, which sees a
      list longer than the one it shows and calls `addLog` with the same
      entry again. `shown` is the list the application shows. */
  function SaveComposedAsWritten(s: Store, d: Draft, id: string, time: string, date: string,
                                 shown: seq<LogEntry>, now: int): (r: Store)
    ensures ComposeEntry(d, id, time, date).None? ==> r == s
    ensures ComposeEntry(d, id, time, date).Some? ==>
              var e := ComposeEntry(d, id, time, date).value;
              Logs(r) == [e, e] + Logs(s) && r.lastSync == Some(now)
  {
    match ComposeEntry(d, id, time, date)
    case None => s
    case Some(e) => AddLogTwice(s, e, shown, now)
  }

  /** The two `addLog` calls one save makes as wired. */
  function AddLogTwice(s: Store, e: LogEntry, shown: seq<LogEntry>, now: int): (r: Store)
    ensures Logs(r) == [e, e] + Logs(s) && r.lastSync == Some(now)
    ensures r.attributes == Some(AttributeEngine.Grow(AttributeEngine.GetActiveAttributes(LogStore.AddLog(s, e, now), now).1,
                                                      LogStore.LogGrowth(e)))
  {
    var s1 := LogStore.AddLog(s, e, now);
    var updated := [e] + shown;
    assert |updated| > |shown| && updated[0] == e;
    App.HandleUpdateLogs(s1, shown, updated, now)
  }

  /** As wired, one save grants the entry's growth twice at the same
      instant: the second `addLog` starts from the scores the first one
      left. */
  lemma SaveAsWrittenGrowsTwice(s: Store, d: Draft, id: string, time: string, date: string,
                                shown: seq<LogEntry>, now: int)
    requires ComposeEntry(d, id, time, date).Some?
    requires AttributeEngine.AllAtLeast(AttributeEngine.Stored(s), AttributeEngine.Floor)
    requires s.lastSync.None? || s.lastSync.value <= now
    ensures var e := ComposeEntry(d, id, time, date).value;
            var g := LogStore.LogGrowth(e);
            var a := AttributeEngine.GetActiveAttributes(s, now).1;
            SaveComposedAsWritten(s, d, id, time, date, shown, now).attributes
              == Some(AttributeEngine.Grow(AttributeEngine.Grow(a, g), g))
  {
    var e := ComposeEntry(d, id, time, date).value;
    var g := LogStore.LogGrowth(e);
    var s1 := LogStore.SaveLogs(s, [e] + Logs(s));
    AttributeEngine.ReadAfterGrowthSameInstant(s1, now, g);
    assert LogStore.AddLog(s, e, now) == AttributeEngine.ApplyGrowth(s1, now, g);
  }

  /** A plain one-line entry, the smallest the composer saves. */
  const PlainDraft: Draft := Draft("a", [], false, None, 0, [], false, false)

  /** The double save on a fresh store: the journal holds the entry twice
      and mind reads 0.56 instead of the 0.53 one grant gives. */
  lemma SaveAsWrittenExample(id: string, time: string, date: string)
    ensures var e := ComposeEntry(PlainDraft, id, time, date).value;
            var r := SaveComposedAsWritten(EmptyStore, PlainDraft, id, time, date, Logs(EmptyStore), 0);
            Logs(r)[0] == e && Logs(r)[1] == e
            && r.attributes.value.mind == 0.56
  {
    assert !Text.IsSpace('a');
    assert ComposeEntry(PlainDraft, id, time, date).Some?;
    SaveAsWrittenGrowsTwice(EmptyStore, PlainDraft, id, time, date, Logs(EmptyStore), 0);
  }

  /** Saving a composed entry with the entry stored once: the composer's
      `addLog` is the only write, and the application's handler only
      adopts the list it is handed. */
  function SaveComposed(s: Store, d: Draft, id: string, time: string, date: string, now: int): (r: Store)
    ensures ComposeEntry(d, id, time, date).None? ==> r == s
    ensures ComposeEntry(d, id, time, date).Some? ==>
              var e := ComposeEntry(d, id, time, date).value;
              Logs(r) == [e] + Logs(s)
              && r.attributes == Some(AttributeEngine.Grow(AttributeEngine.GetActiveAttributes(s, now).1,
                                                           LogStore.LogGrowth(e)))
    ensures forall ep :: ep != LogsEndpoint ==> Read(r, ep) == Read(s, ep)
  {
    match ComposeEntry(d, id, time, date)
    case None => s
    case Some(e) => LogStore.AddLog(s, e, now)
  }

  /** The wiring as written differs from the single save by exactly one
      extra copy of the entry and one extra grant of its growth. */
  lemma SaveAsWrittenAddsOneCopy(s: Store, d: Draft, id: string, time: string, date: string,
                                 shown: seq<LogEntry>, now: int)
    requires ComposeEntry(d, id, time, date).Some?
    ensures var e := ComposeEntry(d, id, time, date).value;
            var fixed := SaveComposed(s, d, id, time, date, now);
            var r := SaveComposedAsWritten(s, d, id, time, date, shown, now);
            Logs(r) == [e] + Logs(fixed)
            && r.attributes == Some(AttributeEngine.Grow(AttributeEngine.GetActiveAttributes(fixed, now).1,
                                                         LogStore.LogGrowth(e)))
  {
  }

  /** `getMonthYear`: drops the first comma, splits at spaces and keeps
      the first and third parts upper-cased; a date with fewer than three
      parts is upper-cased whole. */
  function GetMonthYear(date: string): (r: string)
    ensures |r| <= |date|
  {
    var parts := Text.Split(Text.RemoveFirst(date, ','), ' ');
    if |parts| < 3 then Text.ToUpper(date)
    else
      Text.SplitJoin(Text.RemoveFirst(date, ','), ' ');
      JoinBound(parts);
      Text.ToUpper(parts[0] + " " + parts[2])
  }

  /** Two of the parts with a separator are no longer than the joined
      whole. */
  lemma JoinBound(parts: seq<string>)
    requires |parts| >= 3
    ensures |parts[0]| + 1 + |parts[2]| <= |Text.Join(parts, ' ')|
  {
    assert Text.Join(parts, ' ') == parts[0] + [' '] + Text.Join(parts[1..], ' ');
    assert Text.Join(parts[1..], ' ') == parts[1] + [' '] + Text.Join(parts[2..], ' ');
    assert |Text.Join(parts[2..], ' ')| >= |parts[2]|;
  }

  /** For a date written "Mon DD, YYYY" the header is "MON YYYY". */
  lemma MonthYearOfFormattedDate(mon: string, day: string, year: string)
    requires ' ' !in mon && ' ' !in day && ' ' !in year && ',' !in mon && ',' !in day
    ensures GetMonthYear((mon + [' '] + day) + [','] + ([' '] + year)) == Text.ToUpper(mon + [' '] + year)
  {
    DateParts(mon, day, year);
    Text.RemoveFirstAfter(mon + [' '] + day, ',', [' '] + year);
    Text.SplitAfter(mon, ' ', day + [' '] + year);
    Text.SplitAfter(day, ' ', year);
  }

  lemma DateParts(mon: string, day: string, year: string)
    requires ',' !in mon && ',' !in day
    ensures ',' !in mon + [' '] + day
    ensures (mon + [' '] + day) + ([' '] + year) == mon + [' '] + (day + [' '] + year)
  {
  }

  const PageSize: nat := 10

  /** The entries the timeline shows for the page counter, and whether
      more remain. */
  function DisplayedLogs(logs: seq<LogEntry>, page: nat): (r: LogStore.Page)
    ensures r.data == Seqs.Take(logs, (page + 1) * PageSize)
    ensures r.hasMore <==> |logs| > |r.data|
  {
    LogStore.Page(Seqs.Take(logs, (page + 1) * PageSize), |logs| > (page + 1) * PageSize)
  }

  /** `loadMoreLogs` appends the next service page to what is shown; when
      the view's list is the stored one, this is exactly what the next
      page counter displays, and the service's `hasMore` agrees. */
  lemma LoadMoreMatchesNextPage(s: Store, page: nat)
    ensures var shown := DisplayedLogs(Logs(s), page);
            var more := LogStore.GetLogsPaginated(s, page + 1, PageSize);
            shown.data + more.data == DisplayedLogs(Logs(s), page + 1).data
            && more.hasMore == DisplayedLogs(Logs(s), page + 1).hasMore
  {
    var logs := Logs(s);
    var shown := DisplayedLogs(logs, page).data;
    var more := LogStore.GetLogsPaginated(s, page + 1, PageSize).data;
    var next := DisplayedLogs(logs, page + 1).data;
    assert (page + 2) * PageSize == (page + 1) * PageSize + PageSize;
    if |logs| <= (page + 1) * PageSize {
      assert |more| == 0;
    } else {
      assert |more| == Seqs.Min(PageSize, |logs| - (page + 1) * PageSize);
      assert shown + more == next;
    }
  }

  /** The month label of each entry. */
  function Months(shown: seq<LogEntry>): (r: seq<string>)
    ensures |r| == |shown| && forall i :: 0 <= i < |shown| ==> r[i] == GetMonthYear(shown[i].date)
  {
    seq(|shown|, i requires 0 <= i < |shown| => GetMonthYear(shown[i].date))
  }

  /** A header wherever the label differs from the previous one. */
  function Headers(months: seq<string>): (r: seq<Option<string>>)
    ensures |r| == |months|
    ensures |months| > 0 ==> r[0] == Some(months[0])
  {
    seq(|months|, i requires 0 <= i < |months| =>
      if i == 0 || months[i] != months[i - 1] then Some(months[i]) else None)
  }

  /** The month header above each shown entry: present on the first entry
      and wherever the month differs from the previous entry's. */
  function MonthHeaders(shown: seq<LogEntry>): (r: seq<Option<string>>)
    ensures |r| == |shown|
    ensures |shown| > 0 ==> r[0] == Some(GetMonthYear(shown[0].date))
  {
    Headers(Months(shown))
  }

  /** Loading more never moves a header already shown, and every entry
      is under the header of its own month. */
  lemma MonthHeadersStable(shown: seq<LogEntry>, more: seq<LogEntry>, i: nat)
    requires i < |shown|
    ensures MonthHeaders(shown + more)[..|shown|] == MonthHeaders(shown)
    ensures exists j :: 0 <= j <= i && MonthHeaders(shown)[j] == Some(GetMonthYear(shown[i].date))
  {
    var m := Months(shown);
    assert Months(shown + more)[..|shown|] == m;
    HeadersPrefix(m, Months(shown + more));
    NearestHeader(m, i);
  }

  lemma HeadersPrefix(m: seq<string>, longer: seq<string>)
    requires |m| <= |longer| && longer[..|m|] == m
    ensures Headers(longer)[..|m|] == Headers(m)
  {
    assert forall k :: 0 <= k < |m| ==> longer[k] == m[k];
  }

  lemma {:induction false} NearestHeader(m: seq<string>, i: nat)
    requires i < |m|
    ensures exists j :: 0 <= j <= i && Headers(m)[j] == Some(m[i])
    decreases i
  {
    if i == 0 || m[i] != m[i - 1] {
      assert Headers(m)[i] == Some(m[i]);
    } else {
      NearestHeader(m, i - 1);
    }
  }

  /** The delete dialog: the entry awaiting confirmation and whether a
      deletion is under way. */
  datatype DeleteState = DeleteState(deletingLogId: Option<string>, isActuallyDeleting: bool)

  function ErasedMessage(language: Language): string {
    if language == English then "Signal erased." else "信號已擦除。"
  }

  /** `handleConfirmDelete`: without a pending id (or while deleting)
      nothing happens; otherwise the service deletes the entry, the view
      hands its list without that id to the application, an info notice
      is raised and the dialog closes. */
  function ConfirmDelete(s: Store, st: DeleteState, viewLogs: seq<LogEntry>, language: Language,
                         now: int, noticeId: string, timestamp: string): (r: (Store, DeleteState))
    ensures st.deletingLogId.None? || st.deletingLogId == Some("") || st.isActuallyDeleting ==> r == (s, st)
    ensures st.deletingLogId.Some? && st.deletingLogId.value != "" && !st.isActuallyDeleting ==>
              Logs(r.0) == Seqs.RemoveId(viewLogs, LogStore.LogId, st.deletingLogId.value)
              && r.1 == DeleteState(None, false)
              && |r.0.notifications| > 0 && r.0.notifications[0].message == ErasedMessage(language)
  {
    if st.deletingLogId.None? || st.deletingLogId.value == "" || st.isActuallyDeleting then (s, st)
    else
      var s2 := DeleteAndHandOver(s, viewLogs, st.deletingLogId.value, now);
      var s3 := Notifications.Notify(s2, ErasedMessage(language), InfoToast, noticeId, timestamp).0;
      NoticeKeepsLogs(s2, s3);
      (s3, DeleteState(None, false))
  }

  /** The service deletes the entry, then the view's filtered list goes
      through the application's log update, which stores it. */
  function DeleteAndHandOver(s: Store, viewLogs: seq<LogEntry>, id: string, now: int): (r: Store)
    ensures Logs(r) == Seqs.RemoveId(viewLogs, LogStore.LogId, id)
  {
    var updated := Seqs.RemoveId(viewLogs, LogStore.LogId, id);
    App.HandleUpdateLogs(LogStore.DeleteLog(s, id), viewLogs, updated, now)
  }

  lemma NoticeKeepsLogs(s: Store, r: Store)
    requires r == s.(notifications := r.notifications)
    ensures Logs(r) == Logs(s)
  {
    assert r.records == s.records;
  }

  /** When the view shows the stored journal, confirming a deletion leaves
      no entry with that id and keeps every other entry. */
  lemma ConfirmDeleteRemovesEntry(s: Store, id: string, language: Language, now: int, noticeId: string, timestamp: string)
    requires id != ""
    ensures var r := ConfirmDelete(s, DeleteState(Some(id), false), Logs(s), language, now, noticeId, timestamp).0;
            (forall i :: 0 <= i < |Logs(r)| ==> Logs(r)[i].id != id)
            && (forall i :: 0 <= i < |Logs(s)| && Logs(s)[i].id != id ==> Logs(s)[i] in Logs(r))
  {
  }
}
