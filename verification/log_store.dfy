/** The journal: logs newest first, read a page at a time; adding one
    grants growth, deleting one also deletes its stored voice note
    (backend.ts `getLogsPaginated`, `saveLogs`, `addLog`, `deleteLog`). */
module LogStore {
  import opened Wrappers
  import opened Types
  import opened RecordStore
  import AttributeEngine
  import BlobStore
  import Seqs
  import Text

  function LogId(l: LogEntry): string {
    l.id
  }

  datatype Page = Page(data: seq<LogEntry>, hasMore: bool)

  /** One page of a list: the entries at positions
      `[page*pageSize, page*pageSize + pageSize)` that exist, and whether
      any entry lies beyond them. */
  function Paginate(logs: seq<LogEntry>, page: nat, pageSize: nat): (r: Page)
    ensures |r.data| <= pageSize
    ensures forall i :: 0 <= i < |r.data| ==> page * pageSize + i < |logs| && r.data[i] == logs[page * pageSize + i]
    ensures page * pageSize + pageSize <= |logs| ==> |r.data| == pageSize
    ensures page * pageSize < |logs| ==> |r.data| == Seqs.Min(pageSize, |logs| - page * pageSize)
    ensures r.hasMore <==> page * pageSize + pageSize < |logs|
  {
    var start := page * pageSize;
    Page(Seqs.Slice(logs, start, start + pageSize), start + pageSize < |logs|)
  }

  /** `getLogsPaginated(page, pageSize)` over the stored log. */
  function GetLogsPaginated(s: Store, page: nat, pageSize: nat): (r: Page)
    ensures r == Paginate(Logs(s), page, pageSize)
  {
    Paginate(Logs(s), page, pageSize)
  }

  lemma PaginateSlices(logs: seq<LogEntry>, page: nat, pageSize: nat)
    ensures var start := page * pageSize;
            Paginate(logs, page, pageSize).data == Seqs.Slice(logs, start, start + pageSize)
  {
  }

  /** The first `k` pages, one after another. */
  function FirstPages(s: Store, pageSize: nat, k: nat): seq<LogEntry> {
    if k == 0 then [] else FirstPages(s, pageSize, k - 1) + GetLogsPaginated(s, k - 1, pageSize).data
  }

  /** Reading pages 0, 1, … in turn yields the log in order, with no entry
      skipped or repeated. */
  lemma {:induction false} FirstPagesArePrefix(s: Store, pageSize: nat, k: nat)
    ensures FirstPages(s, pageSize, k) == Seqs.Take(Logs(s), k * pageSize)
  {
    if k > 0 {
      FirstPagesArePrefix(s, pageSize, k - 1);
      var start := (k - 1) * pageSize;
      assert k * pageSize == start + pageSize;
      PaginateSlices(Logs(s), k - 1, pageSize);
      Seqs.TakeThenSlice(Logs(s), start, pageSize);
    }
  }

  /** `saveLogs`: replaces the whole log. */
  function SaveLogs(s: Store, logs: seq<LogEntry>): (r: Store)
    ensures Logs(r) == logs
    ensures forall e :: e != LogsEndpoint ==> Read(r, e) == Read(s, e)
    ensures r == s.(records := r.records)
  {
    Write(s, LogsEndpoint, LogsRecord(logs))
  }

  /** Growth for a new entry: spirit 0.08 for a highlight and 0.04
      otherwise, mind 0.03, adventure 0.05 with images attached, skill
      0.05 with a voice note. */
  function LogGrowth(entry: LogEntry): (g: AttributeEngine.Growth)
    ensures AttributeEngine.NonNegative(g)
    ensures AttributeEngine.Amount(g.spirit) == (if entry.isHighlight == Some(true) then 0.08 else 0.04)
    ensures AttributeEngine.Amount(g.mind) == 0.03
    ensures AttributeEngine.Amount(g.adventure) > 0.0 <==> entry.images.Some? && |entry.images.value| > 0
    ensures AttributeEngine.Amount(g.skill) > 0.0 <==> entry.hasVoice == Some(true)
    ensures AttributeEngine.Amount(g.health) == 0.0 && AttributeEngine.Amount(g.social) == 0.0
  {
    var spirit := if entry.isHighlight == Some(true) then 0.08 else 0.04;
    var adventure := if entry.images.Some? && |entry.images.value| > 0 then 0.05 else 0.0;
    var skill := if entry.hasVoice == Some(true) then 0.05 else 0.0;
    AttributeEngine.Growth(None, Some(0.03), Some(skill), None, Some(adventure), Some(spirit))
  }

  /** `addLog(entry)`: puts the entry in front of the log, then grants its
      growth. */
  function AddLog(s: Store, entry: LogEntry, now: int): (r: Store)
    ensures Logs(r) == [entry] + Logs(s)
    ensures r.lastSync == Some(now)
    ensures r.attributes == Some(AttributeEngine.Grow(AttributeEngine.GetActiveAttributes(s, now).1, LogGrowth(entry)))
    ensures AttributeEngine.GrewBy(AttributeEngine.GetActiveAttributes(s, now).1, r.attributes.value,
                                   0.0, 0.03,
                                   if entry.hasVoice == Some(true) then 0.05 else 0.0,
                                   0.0,
                                   if entry.images.Some? && |entry.images.value| > 0 then 0.05 else 0.0,
                                   if entry.isHighlight == Some(true) then 0.08 else 0.04)
    ensures AttributeEngine.InRange(AttributeEngine.Stored(s)) && (s.lastSync.None? || s.lastSync.value <= now)
            ==> AttributeEngine.InRange(AttributeEngine.Stored(r))
    ensures forall e :: e != LogsEndpoint ==> Read(r, e) == Read(s, e)
    ensures r == s.(records := r.records, attributes := r.attributes, lastSync := r.lastSync)
  {
    var s1 := SaveLogs(s, [entry] + Logs(s));
    AttributeEngine.ApplyGrowth(s1, now, LogGrowth(entry))
  }

  /** The entry carries a voice note kept in the blob store. */
  predicate HasStoredVoice(l: LogEntry) {
    l.voiceData.Some? && Text.StartsWith(l.voiceData.value, BlobStore.Scheme)
  }

  /** `deleteLog(id)`: removes every entry with the id; when the first of
      them has a stored voice note, that blob is deleted too. */
  function DeleteLog(s: Store, logId: string): (r: Store)
    ensures Logs(r) == Seqs.RemoveId(Logs(s), LogId, logId)
    ensures var k := Seqs.FirstIndex(Logs(s), LogId, logId);
            if k.Some? && HasStoredVoice(Logs(s)[k.value])
            then r.blobs == s.blobs - {BlobStore.PathId(Logs(s)[k.value].voiceData.value)}
            else r.blobs == s.blobs
    ensures forall e :: e != LogsEndpoint ==> Read(r, e) == Read(s, e)
    ensures r == s.(records := r.records, blobs := r.blobs)
  {
    var logs := Logs(s);
    var s1 := match Seqs.FirstIndex(logs, LogId, logId)
      case Some(k) =>
        if HasStoredVoice(logs[k]) then BlobStore.RemoveFile(s, logs[k].voiceData.value) else s
      case None => s;
    SaveLogs(s1, Seqs.RemoveId(logs, LogId, logId))
  }

  /** A deleted entry's voice note can no longer be fetched. */
  lemma DeleteLogDropsVoice(s: Store, logId: string)
    requires Seqs.FirstIndex(Logs(s), LogId, logId).Some?
    requires HasStoredVoice(Logs(s)[Seqs.FirstIndex(Logs(s), LogId, logId).value])
    ensures var path := Logs(s)[Seqs.FirstIndex(Logs(s), LogId, logId).value].voiceData.value;
            BlobStore.GetFileBlob(DeleteLog(s, logId), path).None?
  {
  }

  /** Deleting an entry just added under a fresh id restores the log. */
  lemma AddThenDelete(s: Store, entry: LogEntry, now: int)
    requires forall i :: 0 <= i < |Logs(s)| ==> Logs(s)[i].id != entry.id
    ensures Logs(DeleteLog(AddLog(s, entry, now), entry.id)) == Logs(s)
  {
    Seqs.RemoveIdAppend([entry], Logs(s), LogId, entry.id);
    assert Seqs.RemoveId([entry], LogId, entry.id) == [];
  }
}
