/** The letter vault: one letter to the future, sealed with a six-symbol
    key of dots and dashes and disclosed only to a reader presenting that
    key (backend.ts `getFutureLetter`, `saveFutureLetter`). */
module LetterVault {
  import opened Wrappers
  import opened Types
  import opened RecordStore

  const Placeholder: string := "[ENCRYPTED]"
  const AccessDenied: string := "ACCESS_DENIED"
  const KeyLength: nat := 6

  /** What a read returns: no letter at all, or a letter (possibly with its
      content hidden). */
  datatype LetterView = NoLetter | Shown(letter: FutureLetter)

  /** A key symbol is a dot or a dash. */
  predicate IsKeySymbol(c: char) {
    c == '.' || c == '-'
  }

  /** The generated key: one symbol per coin flip (a flip
      that comes up true gives a dot). */
  function KeyFromFlips(flips: seq<bool>): (k: string)
    ensures |k| == |flips|
    ensures forall i :: 0 <= i < |k| ==> IsKeySymbol(k[i]) && (k[i] == '.' <==> flips[i])
  {
    if |flips| == 0 then [] else [if flips[0] then '.' else '-'] + KeyFromFlips(flips[1..])
  }

  /** Every dot/dash string is the key of exactly one flip sequence, so the
      generator can produce any key of the right length. */
  lemma {:induction false} EveryKeyIsGenerated(k: string)
    requires forall i :: 0 <= i < |k| ==> IsKeySymbol(k[i])
    ensures KeyFromFlips(seq(|k|, i requires 0 <= i < |k| => k[i] == '.')) == k
  {
    var flips := seq(|k|, i requires 0 <= i < |k| => k[i] == '.');
    var r := KeyFromFlips(flips);
    assert |r| == |k|;
    forall i | 0 <= i < |k| ensures r[i] == k[i] {
      assert r[i] == '.' <==> flips[i];
    }
  }

  /** The key a save uses: the caller's key when one is given and
      non-empty, otherwise the generated one. */
  function ChooseKey(key: Option<string>, flips: seq<bool>): (k: string)
    requires |flips| == KeyLength
    ensures key.Some? && key.value != "" ==> k == key.value
    ensures key.None? || key.value == "" ==> |k| == KeyLength && forall i :: 0 <= i < |k| ==> IsKeySymbol(k[i])
  {
    if key.Some? && key.value != "" then key.value else KeyFromFlips(flips)
  }

  /** `saveFutureLetter`: stores the letter sealed under the chosen key and
      returns the stored record. */
  function SaveFutureLetter(s: Store, content: string, targetDate: string, createdAt: string,
                            key: Option<string>, flips: seq<bool>): (r: (Store, FutureLetter))
    requires |flips| == KeyLength
    ensures r.1.status == LetterEncrypted
    ensures r.1.content == content && r.1.targetDate == targetDate && r.1.createdAt == createdAt
    ensures r.1.decryptionKey == Some(ChooseKey(key, flips))
    ensures Read(r.0, FutureLetterEndpoint) == LetterRecord(r.1)
    ensures r.0 == s.(records := r.0.records)
    ensures forall e :: e != FutureLetterEndpoint ==> Read(r.0, e) == Read(s, e)
  {
    var letter := FutureLetter(content, targetDate, createdAt, Some(ChooseKey(key, flips)), LetterEncrypted);
    (Write(s, FutureLetterEndpoint, LetterRecord(letter)), letter)
  }

  /** The stored letter, when the record holds one. */
  function StoredLetter(s: Store): Option<FutureLetter> {
    if FutureLetterEndpoint in s.records && s.records[FutureLetterEndpoint].LetterRecord? then
      Some(s.records[FutureLetterEndpoint].letter)
    else None
  }

  /** `getFutureLetter(key)`. With nothing stored there is no letter; an
      open letter is shown whatever the key; without a key (or with an
      empty one) the content and key are hidden; the right key shows the
      letter as open; any other key is refused. Reading never changes the
      store: the promotion to open is not persisted. */
  function GetFutureLetter(s: Store, key: Option<string>): (r: Result<LetterView, string>)
    ensures FutureLetterEndpoint !in s.records ==> r == Success(NoLetter)
    ensures FutureLetterEndpoint in s.records && StoredLetter(s).None? ==> r.Failure?
    ensures StoredLetter(s).Some? && StoredLetter(s).value.status == LetterOpen
            ==> r == Success(Shown(StoredLetter(s).value))
    ensures StoredLetter(s).Some? && StoredLetter(s).value.status != LetterOpen && (key.None? || key.value == "")
            ==> var l := StoredLetter(s).value;
                r == Success(Shown(FutureLetter(Placeholder, l.targetDate, l.createdAt, None, LetterEncrypted)))
    ensures StoredLetter(s).Some? && StoredLetter(s).value.status != LetterOpen
            && key.Some? && key.value != "" && Some(key.value) == StoredLetter(s).value.decryptionKey
            ==> var l := StoredLetter(s).value;
                r == Success(Shown(FutureLetter(l.content, l.targetDate, l.createdAt, l.decryptionKey, LetterOpen)))
    ensures r.Success? && r.value.Shown? ==>
              StoredLetter(s).Some?
              && r.value.letter.targetDate == StoredLetter(s).value.targetDate
              && r.value.letter.createdAt == StoredLetter(s).value.createdAt
    ensures r.Success? && r.value.Shown? && r.value.letter.status == LetterOpen ==>
              r.value.letter.content == StoredLetter(s).value.content
              && (StoredLetter(s).value.status == LetterOpen
                  || (key.Some? && Some(key.value) == StoredLetter(s).value.decryptionKey))
    ensures r.Success? && r.value.Shown? && r.value.letter.status != LetterOpen ==>
              r.value.letter.content == Placeholder && r.value.letter.decryptionKey.None?
    ensures StoredLetter(s).Some? && StoredLetter(s).value.status != LetterOpen
            && key.Some? && key.value != "" && Some(key.value) != StoredLetter(s).value.decryptionKey
            ==> r == Failure(AccessDenied)
  {
    if FutureLetterEndpoint !in s.records then Success(NoLetter)
    else match s.records[FutureLetterEndpoint]
      case LetterRecord(letter) =>
        if letter.status == LetterOpen then Success(Shown(letter))
        else if key.None? || key.value == "" then
          Success(Shown(letter.(content := Placeholder, decryptionKey := None, status := LetterEncrypted)))
        else if Some(key.value) == letter.decryptionKey then Success(Shown(letter.(status := LetterOpen)))
        else Failure(AccessDenied)
      case _ => Failure("MALFORMED_RECORD")
  }

  /** A sealed letter opens with its own key and shows its content. */
  lemma SaveThenOpen(s: Store, content: string, targetDate: string, createdAt: string,
                     key: Option<string>, flips: seq<bool>)
    requires |flips| == KeyLength
    ensures var (s1, letter) := SaveFutureLetter(s, content, targetDate, createdAt, key, flips);
            GetFutureLetter(s1, letter.decryptionKey) == Success(Shown(letter.(status := LetterOpen)))
  {
    var k := ChooseKey(key, flips);
    if key.None? || key.value == "" {
      assert |k| == KeyLength;
    }
  }

  /** Without a key a sealed letter shows only the placeholder. */
  lemma SaveThenPeek(s: Store, content: string, targetDate: string, createdAt: string,
                     key: Option<string>, flips: seq<bool>)
    requires |flips| == KeyLength
    ensures var (s1, letter) := SaveFutureLetter(s, content, targetDate, createdAt, key, flips);
            GetFutureLetter(s1, None) == Success(Shown(FutureLetter(Placeholder, targetDate, createdAt, None, LetterEncrypted)))
  {
  }

  /** Any key other than the sealing key is refused. */
  lemma SaveThenWrongKey(s: Store, content: string, targetDate: string, createdAt: string,
                         key: Option<string>, flips: seq<bool>, guess: string)
    requires |flips| == KeyLength
    requires guess != "" && guess != ChooseKey(key, flips)
    ensures GetFutureLetter(SaveFutureLetter(s, content, targetDate, createdAt, key, flips).0, Some(guess))
            == Failure(AccessDenied)
  {
  }
}
