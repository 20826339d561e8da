/**
 * The list of diary entries (components/diary-entry-list.tsx): which entries
 * a "locked" or "unlocked" list shows, how durations are written, and what
 * pressing an entry's play button does to the component's state.
 */
module DiaryEntryList {
  import opened Wrappers
  import opened Text

  /** A row of `diary_entries`; timestamps are integers on one clock. */
  datatype DiaryEntry = DiaryEntry(
    id: string,
    title: string,
    description: Option<string>,
    mood: Option<string>,
    audioUrl: string,
    encryptionKey: string,
    createdAt: int,
    unlockDate: int,
    duration: nat,
    isPlayed: bool)

  datatype ListKind = Locked | Unlocked

  // ---------------------------------------------------------------------------
  // formatDuration: `${mins}:${secs.toString().padStart(2, "0")}`
  // ---------------------------------------------------------------------------

  function FormatDuration(seconds: nat): string
  {
    NatToString(seconds / 60, 10) + ":" + PadStart(NatToString(seconds % 60, 10), 2, '0')
  }

  /**
   * A duration is written as whole minutes, unpadded, a colon, and the
   * remaining seconds as exactly two digits; reading the text gives back
   * minutes and seconds below 60 that add up to the duration.
   */
  lemma FormatDurationReadsBack(seconds: nat)
    ensures var t := FormatDuration(seconds);
      |t| == |NatToString(seconds / 60, 10)| + 3 && t[|t| - 3] == ':' &&
      ParseClock(t) == Some((seconds / 60, seconds % 60))
    ensures seconds % 60 < 60 && (seconds / 60) * 60 + seconds % 60 == seconds
  {
    var m := NatToString(seconds / 60, 10);
    var sec := PadStart(NatToString(seconds % 60, 10), 2, '0');
    TwoDigits(seconds % 60, 10);
    ReadNatToString(seconds / 60, 10);
    ReadPaddedNatToString(seconds % 60, 2, 10);
    ParseClockJoin(m, sec);
  }

  lemma FormatDurationInjective(a: nat, b: nat)
    requires FormatDuration(a) == FormatDuration(b)
    ensures a == b
  {
    FormatDurationReadsBack(a);
    FormatDurationReadsBack(b);
  }

  // ---------------------------------------------------------------------------
  // fetchEntries: .lte("unlock_date", now) or .gt("unlock_date", now)
  // ---------------------------------------------------------------------------

  /** Whether an entry belongs in a list of the given kind at time `now`. */
  predicate InView(kind: ListKind, e: DiaryEntry, now: int)
  {
    match kind
    case Unlocked => e.unlockDate <= now
    case Locked => e.unlockDate > now
  }

  /** The rows the query returns: the table's rows, in the order the database gives them, filtered on the unlock date. */
  function Visible(kind: ListKind, table: seq<DiaryEntry>, now: int): (r: seq<DiaryEntry>)
    ensures |r| <= |table|
  {
    if table == [] then []
    else if InView(kind, table[0], now) then [table[0]] + Visible(kind, table[1..], now)
    else Visible(kind, table[1..], now)
  }

  /** A list shows exactly the rows of the table that belong in it. */
  lemma {:induction false} VisibleMembers(kind: ListKind, table: seq<DiaryEntry>, now: int)
    ensures forall e :: e in Visible(kind, table, now) <==> e in table && InView(kind, e, now)
  {
    if table != [] {
      VisibleMembers(kind, table[1..], now);
      assert table == [table[0]] + table[1..];
    }
  }

  /** Every entry is either locked or unlocked at `now`, never both. */
  lemma ExactlyOneView(e: DiaryEntry, now: int)
    ensures InView(Unlocked, e, now) != InView(Locked, e, now)
  {
  }

  /** The two lists together hold each row of the table exactly as often as the table does. */
  lemma {:induction false} ViewsPartition(table: seq<DiaryEntry>, now: int)
    ensures multiset(Visible(Unlocked, table, now)) + multiset(Visible(Locked, table, now)) == multiset(table)
  {
    if table != [] {
      var e, rest := table[0], table[1..];
      ViewsPartition(rest, now);
      assert table == [e] + rest;
      if e.unlockDate <= now {
        assert Visible(Unlocked, table, now) == [e] + Visible(Unlocked, rest, now);
        assert Visible(Locked, table, now) == Visible(Locked, rest, now);
      } else {
        assert Visible(Unlocked, table, now) == Visible(Unlocked, rest, now);
        assert Visible(Locked, table, now) == [e] + Visible(Locked, rest, now);
      }
    }
  }

  /** Newest first, the order `order("created_at", { ascending: false })` asks of the database. */
  predicate NewestFirst(s: seq<DiaryEntry>)
  {
    forall i, j :: 0 <= i < j < |s| ==> s[i].createdAt >= s[j].createdAt
  }

  /** Filtering on the unlock date keeps the database's newest-first order. */
  lemma {:induction false} VisibleKeepsOrder(kind: ListKind, table: seq<DiaryEntry>, now: int)
    requires NewestFirst(table)
    ensures NewestFirst(Visible(kind, table, now))
  {
    if table != [] {
      var rest := Visible(kind, table[1..], now);
      assert NewestFirst(table[1..]) by {
        forall i, j | 0 <= i < j < |table[1..]| ensures table[1..][i].createdAt >= table[1..][j].createdAt {
          assert table[1..][i] == table[i + 1] && table[1..][j] == table[j + 1];
        }
      }
      VisibleKeepsOrder(kind, table[1..], now);
      VisibleMembers(kind, table[1..], now);
      if InView(kind, table[0], now) {
        var r := [table[0]] + rest;
        forall i, j | 0 <= i < j < |r| ensures r[i].createdAt >= r[j].createdAt {
          if i == 0 {
            assert r[j] in table[1..];
            var k :| 0 <= k < |table[1..]| && table[1..][k] == r[j];
            assert table[k + 1] == r[j];
          } else {
            assert r[i] == rest[i - 1] && r[j] == rest[j - 1];
          }
        }
      }
    }
  }

  // ---------------------------------------------------------------------------
  // The local "mark as played" update:
  // entries.map(e => e.id === entry.id ? { ...e, is_played: true } : e)
  // ---------------------------------------------------------------------------

  /**
   * Every entry with the given id becomes played, and nothing else changes:
   * same length, same order, same ids, all other fields as they were.
   */
  function MarkPlayed(entries: seq<DiaryEntry>, id: string): (r: seq<DiaryEntry>)
    ensures |r| == |entries|
    ensures forall i :: 0 <= i < |r| ==>
      r[i] == entries[i].(isPlayed := entries[i].isPlayed || entries[i].id == id)
  {
    if entries == [] then []
    else
      var e := entries[0];
      var tail := MarkPlayed(entries[1..], id);
      assert forall i :: 1 <= i < |entries| ==> entries[i] == entries[1..][i - 1];
      [if e.id == id then e.(isPlayed := true) else e] + tail
  }

  /** Marking the same entry twice is marking it once. */
  lemma MarkPlayedIdempotent(entries: seq<DiaryEntry>, id: string)
    ensures MarkPlayed(MarkPlayed(entries, id), id) == MarkPlayed(entries, id)
  {
    var once := MarkPlayed(entries, id);
    var twice := MarkPlayed(once, id);
    assert forall i | 0 <= i < |entries| :: twice[i] == once[i];
  }

  /** An id absent from the list leaves the list as it was. */
  lemma MarkPlayedAbsent(entries: seq<DiaryEntry>, id: string)
    requires forall i :: 0 <= i < |entries| ==> entries[i].id != id
    ensures MarkPlayed(entries, id) == entries
  {
    var r := MarkPlayed(entries, id);
    forall i | 0 <= i < |entries| ensures r[i] == entries[i] {
      assert r[i].(isPlayed := entries[i].isPlayed) == entries[i];
    }
  }

  // ---------------------------------------------------------------------------
  // The component's state
  // ---------------------------------------------------------------------------

  /** A URL is usable when it is present and not the empty string, as JavaScript's truthiness has it. */
  predicate IsTruthy(url: Option<string>)
  {
    url.Some? && url.value != ""
  }

  /** The one state of `DiaryEntryList({ type })` the decryption and the player depend on. */
  class EntryList {
    const kind: ListKind
    var entries: seq<DiaryEntry>
    var loading: bool
    var selectedEntry: Option<DiaryEntry>
    var decryptedAudioUrl: Option<string>
    var isDecrypting: bool

    /** A decryption is only ever under way for the selected entry. */
    ghost predicate Valid()
      reads this
    {
      isDecrypting ==> selectedEntry.Some?
    }

    /** The initial `useState` values: no entries, loading, nothing selected. */
    constructor(kind: ListKind)
      ensures Valid()
      ensures this.kind == kind && entries == [] && loading
      ensures selectedEntry == None && decryptedAudioUrl == None && !isDecrypting
    {
      this.kind := kind;
      entries := [];
      loading := true;
      selectedEntry := None;
      decryptedAudioUrl := None;
      isDecrypting := false;
    }

    /**
     * `fetchEntries()` once the query is answered. `table` is the table in the
     * order the database sorts it, `failure` the error message if the query
     * failed: a missing table empties the list, any other error is logged and
     * keeps the list as it was. Loading ends either way.
     */
    method FetchEntries(table: seq<DiaryEntry>, now: int, failure: Option<string>)
      requires Valid()
      modifies this
      ensures Valid()
      ensures !loading
      ensures entries == match failure
        case None => Visible(kind, table, now)
        case Some(message) => if Includes(message, "does not exist") then [] else old(entries)
      ensures selectedEntry == old(selectedEntry) && decryptedAudioUrl == old(decryptedAudioUrl)
      ensures isDecrypting == old(isDecrypting)
    {
      match failure {
        case None =>
          entries := Visible(kind, table, now);
        case Some(message) =>
          if Includes(message, "does not exist") {
            entries := [];
          }
      }
      loading := false;
    }

    /**
     * `handlePlayEntry(entry)` up to its first `await`. Pressing the play
     * button of the entry that is selected and has its audio ready hides the
     * player; any other press selects the entry and starts decrypting,
     * leaving the URL decrypted before in place. The button is disabled while
     * a decryption is under way.
     */
    method HandlePlayEntry(entry: DiaryEntry) returns (hidden: bool)
      requires Valid() && !isDecrypting
      modifies this
      ensures Valid()
      ensures hidden == (old(selectedEntry).Some? && old(selectedEntry).value.id == entry.id && IsTruthy(old(decryptedAudioUrl)))
      ensures hidden ==> selectedEntry == None && decryptedAudioUrl == None && !isDecrypting
      ensures !hidden ==> selectedEntry == Some(entry) && isDecrypting && decryptedAudioUrl == old(decryptedAudioUrl)
      ensures entries == old(entries) && loading == old(loading)
    {
      hidden := selectedEntry.Some? && selectedEntry.value.id == entry.id && IsTruthy(decryptedAudioUrl);
      if hidden {
        selectedEntry := None;
        decryptedAudioUrl := None;
        return;
      }
      selectedEntry := Some(entry);
      isDecrypting := true;
    }

    /**
     * The rest of `handlePlayEntry(entry)`: `decrypted` is the object URL of
     * the decrypted audio, or None when fetching or decrypting threw. On
     * success the URL is shown and, for an entry not played before, the list
     * marks it played. Decrypting ends either way.
     */
    method CompletePlay(entry: DiaryEntry, decrypted: Option<string>)
      requires Valid() && isDecrypting && selectedEntry.value == entry
      modifies this
      ensures Valid() && !isDecrypting
      ensures selectedEntry == old(selectedEntry) && loading == old(loading)
      ensures decryptedAudioUrl == if decrypted.Some? then decrypted else old(decryptedAudioUrl)
      ensures entries == if decrypted.Some? && !entry.isPlayed then MarkPlayed(old(entries), entry.id) else old(entries)
    {
      if decrypted.Some? {
        decryptedAudioUrl := decrypted;
        if !entry.isPlayed {
          entries := MarkPlayed(entries, entry.id);
        }
      }
      isDecrypting := false;
    }
  }

  /** Playing an entry and pressing its button again once the audio is ready hides the player again. */
  method PlayThenPressAgain(kind: ListKind, entry: DiaryEntry, url: string) returns (hidden: bool, selected: Option<DiaryEntry>)
    requires url != ""
    ensures hidden && selected == None
  {
    var list := new EntryList(kind);
    var first := list.HandlePlayEntry(entry);
    list.CompletePlay(entry, Some(url));
    hidden := list.HandlePlayEntry(entry);
    selected := list.selectedEntry;
  }
}
