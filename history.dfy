/** The conversation-history buffer of the chat client: a list of
    `{"role": ..., "parts": [text]}` entries, appended to one at a time and
    trimmed from the front, two entries at a time, while its serialised form
    is longer than `MaxHistoryTokens` characters. */
module History {

  /** The budget for the serialised history (an approximation of tokens). */
  const MaxHistoryTokens: nat := 4000

  /** One history entry, the dictionary `{"role": role, "parts": parts}`. */
  datatype Entry = Entry(role: string, parts: seq<string>)

  /** The length of `json.dumps(history)`. The exact count is library
      behaviour; every property below holds for any such function. */
  type Size = seq<Entry> -> nat

  /** The role stored for a caller's role: "assistant" becomes "model", the
      tag the remote protocol uses for model-authored turns. */
  function CanonicalRole(role: string): (r: string)
    ensures r != "assistant"
    ensures r == "model" <==> role == "assistant" || role == "model"
    ensures role != "assistant" ==> r == role
  {
    if role == "assistant" then "model" else role
  }

  /** The entry `add_to_history(role, text)` appends. */
  function NewEntry(role: string, text: string): Entry {
    Entry(CanonicalRole(role), [text])
  }

  /** The condition of the trimming loop: the serialised history is over
      budget and more than one entry remains. */
  predicate OverBudget(h: seq<Entry>, size: Size) {
    size(h) > MaxHistoryTokens && |h| > 1
  }

  /** The loop condition holds once the first `n` pairs are removed. */
  predicate OverBudgetAfter(h: seq<Entry>, size: Size, n: nat) {
    2 * n <= |h| && OverBudget(h[2 * n..], size)
  }

  /** How many leading pairs the trimming loop removes from `h`: it removes
      the first two entries for as long as the loop condition holds, so it
      stops with the condition false, never past the end of the list. */
  function PairsTrimmed(h: seq<Entry>, size: Size): (n: nat)
    ensures 2 * n <= |h|
    ensures !OverBudget(h[2 * n..], size)
    decreases |h|
  {
    if OverBudget(h, size) then
      var m := PairsTrimmed(h[2..], size);
      assert h[2..][2 * m..] == h[2 * (m + 1)..];
      1 + m
    else 0
  }

  /** What the trimming loop leaves of `h`. */
  function Trimmed(h: seq<Entry>, size: Size): seq<Entry> {
    h[2 * PairsTrimmed(h, size)..]
  }

  /** The history after `add_to_history(role, text)`. */
  function Added(h: seq<Entry>, role: string, text: string, size: Size): seq<Entry> {
    Trimmed(h + [NewEntry(role, text)], size)
  }

  /** Trimming removes as few entries as the loop allows: before each pair
      it removed, the loop condition held. */
  lemma {:induction false} TrimmedRemovesFewest(h: seq<Entry>, size: Size, j: nat)
    requires j < PairsTrimmed(h, size)
    ensures OverBudgetAfter(h, size, j)
    decreases |h|
  {
    assert OverBudget(h, size);
    if j > 0 {
      TrimmedRemovesFewest(h[2..], size, j - 1);
      assert h[2..][2 * (j - 1)..] == h[2 * j..];
    }
  }

  /** Conversely, if the loop condition holds before each of the first `n`
      pairs and fails after them, trimming removes exactly those `n` pairs. */
  lemma {:induction false} TrimmedUnique(h: seq<Entry>, size: Size, n: nat)
    requires 2 * n <= |h| && !OverBudget(h[2 * n..], size)
    requires forall j: nat :: j < n ==> OverBudgetAfter(h, size, j)
    ensures PairsTrimmed(h, size) == n
    decreases n
  {
    if n > 0 {
      assert OverBudgetAfter(h, size, 0);
      assert h[0..] == h;
      forall j: nat | j < n - 1 ensures OverBudgetAfter(h[2..], size, j) {
        assert OverBudgetAfter(h, size, j + 1);
        assert h[2..][2 * j..] == h[2 * (j + 1)..];
      }
      assert h[2..][2 * (n - 1)..] == h[2 * n..];
      TrimmedUnique(h[2..], size, n - 1);
    } else {
      assert h[0..] == h;
    }
  }

  /** `add_to_history` stores exactly one new entry at the end of the list and
      then removes whole pairs from the front, no more than the loop
      condition demands; afterwards the history is within budget or has at
      most one entry. */
  lemma AddedAppendsThenTrims(h: seq<Entry>, role: string, text: string, size: Size)
    ensures var appended := h + [NewEntry(role, text)];
            var r := Added(h, role, text, size);
            var n := PairsTrimmed(appended, size);
            r == appended[2 * n..] &&
            (r != [] ==> r[|r| - 1] == Entry(CanonicalRole(role), [text])) &&
            (size(r) <= MaxHistoryTokens || |r| <= 1) &&
            (forall j: nat :: j < n ==> OverBudgetAfter(appended, size, j))
  {
    var appended := h + [NewEntry(role, text)];
    forall j: nat | j < PairsTrimmed(appended, size)
      ensures OverBudgetAfter(appended, size, j)
    {
      TrimmedRemovesFewest(appended, size, j);
    }
  }

  /** Each call of `add_to_history` changes the parity of the history's
      length: one entry is added and pairs are removed. */
  lemma AddedFlipsParity(h: seq<Entry>, role: string, text: string, size: Size)
    ensures |Added(h, role, text, size)| % 2 != |h| % 2
  {
    var appended := h + [NewEntry(role, text)];
    assert |Added(h, role, text, size)| == |h| + 1 - 2 * PairsTrimmed(appended, size);
  }

  /** No entry ever carries the role "assistant" once appended. */
  predicate NoAssistantRole(h: seq<Entry>) {
    forall i :: 0 <= i < |h| ==> h[i].role != "assistant"
  }

  lemma AddedHasNoAssistantRole(h: seq<Entry>, role: string, text: string, size: Size)
    requires NoAssistantRole(h)
    ensures NoAssistantRole(Added(h, role, text, size))
  {
    var appended := h + [NewEntry(role, text)];
    var r := Added(h, role, text, size);
    var k := 2 * PairsTrimmed(appended, size);
    forall i | 0 <= i < |r| ensures r[i].role != "assistant" {
      assert r[i] == appended[k + i];
      if k + i < |h| {
        assert appended[k + i] == h[k + i];
      } else {
        assert appended[k + i] == NewEntry(role, text);
      }
    }
  }

  /** The module-level `conversation_history` list together with the size
      function that stands for `len(json.dumps(...))`. */
  class ConversationHistory {
    var entries: seq<Entry>
    const size: Size

    /** The list starts empty. */
    constructor (size: Size)
      ensures entries == [] && this.size == size
    {
      entries := [];
      this.size := size;
    }

    /** `get_formatted_history`: the list as it stands. */
    function Formatted(): seq<Entry>
      reads this
    {
      entries
    }

    /** `add_to_history(role, text)`: append, then trim in place. */
    method Add(role: string, text: string)
      modifies this
      ensures entries == Added(old(entries), role, text, size)
      ensures size(entries) <= MaxHistoryTokens || |entries| <= 1
    {
      entries := entries + [NewEntry(role, text)];
      ghost var appended := entries;
      ghost var removed: nat := 0;
      while size(entries) > MaxHistoryTokens && |entries| > 1
        invariant 2 * removed <= |appended| && entries == appended[2 * removed..]
        invariant removed + PairsTrimmed(entries, size) == PairsTrimmed(appended, size)
        decreases |entries|
      {
        if |entries| >= 2 {
          assert entries[2..] == appended[2 * (removed + 1)..];
          entries := entries[2..];
          removed := removed + 1;
        } else {
          assert false;
        }
      }
    }

    /** The `/clear` command: the list is replaced by an empty one. */
    method Clear()
      modifies this
      ensures entries == []
    {
      entries := [];
    }
  }
}
