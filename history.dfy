/**
 * The session's generation history: newest entry first, entries inserted at
 * position 0 and deleted by position. No size bound is imposed.
 */
module History {
  import opened TextToSpeech

  /** One completed generation as the history list stores it. */
  datatype HistoryEntry = HistoryEntry(
    text: string,
    language: string,
    voice: string,
    speed: real,
    timestamp: string,
    audioContent: Bytes)

  /** `history.insert(0, entry)`: the new entry first, every earlier one shifted up by one. */
  function Prepend(log: seq<HistoryEntry>, entry: HistoryEntry): (r: seq<HistoryEntry>)
    ensures |r| == |log| + 1
    ensures r[0] == entry
    ensures forall k :: 0 <= k < |log| ==> r[k + 1] == log[k]
  {
    [entry] + log
  }

  /**
   * `history.pop(idx)`: exactly the entry at `idx` leaves; the ones before it
   * keep their positions, the ones after it move down by one.
   */
  function RemoveAt(log: seq<HistoryEntry>, idx: nat): (r: seq<HistoryEntry>)
    requires idx < |log|
    ensures |r| == |log| - 1
    ensures forall k :: 0 <= k < idx ==> r[k] == log[k]
    ensures forall k :: idx <= k < |r| ==> r[k] == log[k + 1]
    ensures multiset(r) + multiset{log[idx]} == multiset(log)
  {
    assert log == log[..idx] + [log[idx]] + log[idx + 1..];
    log[..idx] + log[idx + 1..]
  }

  /** Deleting the newest entry undoes an insertion. */
  lemma RemoveUndoesPrepend(log: seq<HistoryEntry>, entry: HistoryEntry)
    ensures RemoveAt(Prepend(log, entry), 0) == log
  {
    assert Prepend(log, entry)[1..] == log;
  }

  /** After deleting position 0 the previous second entry is the newest. */
  lemma RemoveFirstPromotesSecond(log: seq<HistoryEntry>)
    requires |log| >= 2
    ensures |RemoveAt(log, 0)| == |log| - 1 && RemoveAt(log, 0)[0] == log[1]
  {
  }

  /** `st.session_state.history`. */
  class HistoryLog {
    var entries: seq<HistoryEntry>

    /** The list created on the session's first run. */
    constructor ()
      ensures entries == []
    {
      entries := [];
    }

    method Insert(entry: HistoryEntry)
      modifies this
      ensures entries == Prepend(old(entries), entry)
    {
      entries := [entry] + entries;
    }

    /**
     * Deletes the entry at `idx`. An index past the end raises `IndexError`
     * in the source, which the page's catch-all handler absorbs: the list is
     * then left as it was and `false` is returned.
     */
    method Pop(idx: nat) returns (removed: bool)
      modifies this
      ensures removed == (idx < |old(entries)|)
      ensures removed ==> entries == RemoveAt(old(entries), idx)
      ensures !removed ==> entries == old(entries)
    {
      if idx >= |entries| {
        return false;
      }
      entries := entries[..idx] + entries[idx + 1..];
      return true;
    }
  }
}
