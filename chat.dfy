/** One exchange with the model (`ask_gemini`) and the read-eval loop of
    `main` that drives it, over the history buffer. The remote call is a
    parameter: a total function from the number of the input line being
    handled, the history and the prompt to either the answer text or the
    text of the exception the client library raised. */
module Chat {
  import opened History
  import opened GeminiErrors
  import opened Commands
  import opened Text

  datatype Result<+T, +E> = Ok(value: T) | Err(error: E)

  /** What `ask_gemini` produces: the answer, or, where it prints an error
      message and returns `None`, the kind of message it printed. */
  datatype Reply = Answered(text: string) | Failed(kind: ErrorKind)

  /** `model.start_chat(history=h).send_message(prompt).text` for the call
      made while handling input line number `turn`: each call is a fresh
      request, so the same prompt on the same history may fail on one line
      and be answered on a later one. */
  type Remote = (nat, seq<Entry>, string) -> Result<string, string>

  /** The history after `ask_gemini(prompt)` whose remote call ended with
      `outcome`: the prompt and then the answer are appended on success,
      nothing is on failure. */
  function Exchanged(h: seq<Entry>, prompt: string, outcome: Result<string, string>, size: Size): seq<Entry> {
    match outcome
    case Ok(answer) => Added(Added(h, "user", prompt, size), "model", answer, size)
    case Err(_) => h
  }

  /** The role the `i`-th entry has in a history built from whole exchanges. */
  function RoleAt(i: nat): string {
    if i % 2 == 0 then "user" else "model"
  }

  /** Entries alternate "user", "model", "user", ... from the first one. */
  predicate Alternating(h: seq<Entry>) {
    forall i :: 0 <= i < |h| ==> h[i].role == RoleAt(i)
  }

  lemma AlternatingDropPairs(h: seq<Entry>, n: nat)
    requires Alternating(h) && 2 * n <= |h|
    ensures Alternating(h[2 * n..])
  {
    forall i | 0 <= i < |h| - 2 * n ensures h[2 * n..][i].role == RoleAt(i) {
      assert h[2 * n..][i] == h[2 * n + i];
      assert RoleAt(2 * n + i) == RoleAt(i);
    }
  }

  lemma AlternatingAppend(h: seq<Entry>, e: Entry)
    requires Alternating(h) && e.role == RoleAt(|h|)
    ensures Alternating(h + [e])
  {
    forall i | 0 <= i < |h| + 1 ensures (h + [e])[i].role == RoleAt(i) {
      if i < |h| {
        assert (h + [e])[i] == h[i];
      }
    }
  }

  /** Trimming removes whole pairs, so an alternating history stays one. */
  lemma TrimmedKeepsAlternation(h: seq<Entry>, size: Size)
    requires Alternating(h)
    ensures var r := Trimmed(h, size);
            Alternating(r) && |r| % 2 == |h| % 2
  {
    AlternatingDropPairs(h, PairsTrimmed(h, size));
  }

  /** Appending the entry whose role fits the next position keeps a history
      alternating, whatever trimming then removes. */
  lemma AddedKeepsAlternation(h: seq<Entry>, role: string, text: string, size: Size)
    requires Alternating(h) && CanonicalRole(role) == RoleAt(|h|)
    ensures Alternating(Added(h, role, text, size))
  {
    AlternatingAppend(h, NewEntry(role, text));
    TrimmedKeepsAlternation(h + [NewEntry(role, text)], size);
  }

  /** An exchange, successful or not, keeps a history of whole alternating
      exchanges as one: even length, "user" at even and "model" at odd
      positions. */
  lemma {:induction false} ExchangeKeepsAlternation(h: seq<Entry>, prompt: string, outcome: Result<string, string>, size: Size)
    requires Alternating(h) && |h| % 2 == 0
    ensures var r := Exchanged(h, prompt, outcome, size);
            Alternating(r) && |r| % 2 == 0
  {
    if outcome.Ok? {
      assert CanonicalRole("user") == "user" == RoleAt(|h|);
      AddedKeepsAlternation(h, "user", prompt, size);
      AddedFlipsParity(h, "user", prompt, size);
      var h1 := Added(h, "user", prompt, size);
      assert CanonicalRole("model") == "model" == RoleAt(|h1|);
      AddedKeepsAlternation(h1, "model", outcome.value, size);
      AddedFlipsParity(h1, "model", outcome.value, size);
    }
  }

  /** A successful exchange on an even history is kept whole or dropped
      whole: the result is the old history followed by the new user/model
      pair, with an even number of leading entries removed, so it ends with
      that pair unless it is empty; and it is within budget unless empty. */
  lemma ExchangeKeepsPairWhole(h: seq<Entry>, prompt: string, answer: string, size: Size)
    requires |h| % 2 == 0
    ensures var r := Exchanged(h, prompt, Ok(answer), size);
            PairKeptWhole(h, [Entry("user", [prompt]), Entry("model", [answer])], r) &&
            (r != [] ==> size(r) <= MaxHistoryTokens)
  {
    var pair := [Entry("user", [prompt]), Entry("model", [answer])];
    var r := Exchanged(h, prompt, Ok(answer), size);
    var n := TwoAppendsLeaveSuffix(h, pair[0], pair[1], size);
    assert r == (h + pair)[2 * n..] by {
      assert NewEntry("user", prompt) == pair[0] && NewEntry("model", answer) == pair[1];
      assert [pair[0], pair[1]] == pair;
    }
    EvenSuffixKeepsLastPair(h, pair, n);
    if r != [] {
      assert !OverBudget(r, size) by {
        var v := Added(h, "user", prompt, size) + [NewEntry("model", answer)];
        assert r == v[2 * PairsTrimmed(v, size)..];
      }
    }
  }

  /** `r` is what is left of `h + pair` after an even number of leading
      entries are removed: of even length, and ending with `pair` unless
      empty. */
  predicate PairKeptWhole(h: seq<Entry>, pair: seq<Entry>, r: seq<Entry>) {
    |r| % 2 == 0 && |r| <= |h| + |pair| && r == (h + pair)[|h| + |pair| - |r|..] &&
    (r != [] ==> |pair| <= |r| && r[|r| - |pair|..] == pair)
  }

  lemma EvenSuffixKeepsLastPair(h: seq<Entry>, pair: seq<Entry>, n: nat)
    requires |h| % 2 == 0 && |pair| == 2 && 2 * n <= |h| + 2
    ensures PairKeptWhole(h, pair, (h + pair)[2 * n..])
  {
    var r := (h + pair)[2 * n..];
    if r != [] {
      assert r[|r| - 2..] == (h + pair)[|h|..];
    }
  }

  /** Two appends, each followed by trimming, leave the two new entries
      after what remains of the old history, less `n` leading pairs. */
  lemma TwoAppendsLeaveSuffix(h: seq<Entry>, x: Entry, y: Entry, size: Size) returns (n: nat)
    ensures 2 * n <= |h| + 2
    ensures Trimmed(Trimmed(h + [x], size) + [y], size) == (h + [x, y])[2 * n..]
  {
    var u := h + [x];
    var n1 := PairsTrimmed(u, size);
    var v := Trimmed(u, size) + [y];
    assert v == (h + [x, y])[2 * n1..];
    var n2 := PairsTrimmed(v, size);
    assert v[2 * n2..] == (h + [x, y])[2 * (n1 + n2)..];
    n := n1 + n2;
  }

  /** The history after `main` has read one input line. */
  function AfterLine(h: seq<Entry>, line: string, turn: nat, send: Remote, size: Size): seq<Entry> {
    match Recognize(line)
    case Clear => []
    case Prompt(text) => Exchanged(h, text, send(turn, h, text), size)
    case _ => h
  }

  /** The history after `main` has read `lines` one after another, line
      number `i` being handled on turn `i`. */
  function Replayed(h: seq<Entry>, lines: seq<string>, send: Remote, size: Size): seq<Entry>
    decreases |lines|
  {
    if lines == [] then h
    else AfterLine(Replayed(h, lines[..|lines| - 1], send, size), lines[|lines| - 1], |lines| - 1, send, size)
  }

  lemma AfterLineKeepsAlternation(h: seq<Entry>, line: string, turn: nat, send: Remote, size: Size)
    requires Alternating(h) && |h| % 2 == 0
    ensures var r := AfterLine(h, line, turn, send, size);
            Alternating(r) && |r| % 2 == 0
  {
    match Recognize(line)
    case Prompt(text) => ExchangeKeepsAlternation(h, text, send(turn, h, text), size);
    case _ =>
  }

  /** Whatever the user types and however the remote calls end, a session
      that starts from an empty (or any alternating, even) history keeps it
      alternating and of even length after every line. */
  lemma {:induction false} ReplayedKeepsAlternation(h: seq<Entry>, lines: seq<string>, send: Remote, size: Size)
    requires Alternating(h) && |h| % 2 == 0
    ensures var r := Replayed(h, lines, send, size);
            Alternating(r) && |r| % 2 == 0
    decreases |lines|
  {
    if lines != [] {
      var before := lines[..|lines| - 1];
      ReplayedKeepsAlternation(h, before, send, size);
      AfterLineKeepsAlternation(Replayed(h, before, send, size), lines[|lines| - 1], |lines| - 1, send, size);
    }
  }

  /** Trimming does not protect the newest exchange: when each entry alone
      is large, the prompt survives its own append as a single entry, and the
      answer's append then removes both, so even a first exchange leaves the
      history empty. */
  lemma NewestExchangeCanBeEvicted()
    ensures Exchanged([], "hi", Ok("hello"), (s: seq<Entry>) => 5000 * |s|) == []
  {
    var size: Size := (s: seq<Entry>) => 5000 * |s|;
    var u := Entry("user", ["hi"]);
    var m := Entry("model", ["hello"]);
    assert [] + [u] == [u];
    assert !OverBudget([u], size);
    assert Added([], "user", "hi", size) == [u];
    assert [u] + [m] == [u, m];
    assert OverBudget([u, m], size);
    assert [u, m][2..] == [];
    assert Trimmed([u, m], size) == Trimmed([], size);
  }

  /** The loop only runs while the history weighs strictly more than the
      budget: when each entry weighs a quarter of the budget, four entries
      weigh exactly the budget and stay, so three exchanges leave the last
      two of them. */
  lemma ThreeExchangesKeepTwo()
    ensures var size: Size := (s: seq<Entry>) => 1000 * |s|;
            Exchanged(Exchanged(Exchanged([], "a", Ok("b"), size), "c", Ok("d"), size), "e", Ok("f"), size)
            == [Entry("user", ["c"]), Entry("model", ["d"]), Entry("user", ["e"]), Entry("model", ["f"])]
  {
    var size: Size := (s: seq<Entry>) => 1000 * |s|;
    var u1, m1 := Entry("user", ["a"]), Entry("model", ["b"]);
    var u2, m2 := Entry("user", ["c"]), Entry("model", ["d"]);
    var u3, m3 := Entry("user", ["e"]), Entry("model", ["f"]);
    assert Added([], "user", "a", size) == [u1] by {
      assert [] + [u1] == [u1] && !OverBudget([u1], size);
    }
    assert Added([u1], "model", "b", size) == [u1, m1] by {
      assert [u1] + [m1] == [u1, m1] && !OverBudget([u1, m1], size);
    }
    assert Added([u1, m1], "user", "c", size) == [u1, m1, u2] by {
      assert [u1, m1] + [u2] == [u1, m1, u2] && !OverBudget([u1, m1, u2], size);
    }
    assert Added([u1, m1, u2], "model", "d", size) == [u1, m1, u2, m2] by {
      assert [u1, m1, u2] + [m2] == [u1, m1, u2, m2] && !OverBudget([u1, m1, u2, m2], size);
    }
    assert Added([u1, m1, u2, m2], "user", "e", size) == [u2, m2, u3] by {
      var v := [u1, m1, u2, m2, u3];
      assert [u1, m1, u2, m2] + [u3] == v && OverBudget(v, size);
      assert v[2..] == [u2, m2, u3] && !OverBudget(v[2..], size);
      assert PairsTrimmed(v[2..], size) == 0;
      assert PairsTrimmed(v, size) == 1;
    }
    assert Added([u2, m2, u3], "model", "f", size) == [u2, m2, u3, m3] by {
      assert [u2, m2, u3] + [m3] == [u2, m2, u3, m3] && !OverBudget([u2, m2, u3, m3], size);
    }
  }

  /** Every line makes its own remote call: a prompt whose first call fails
      leaves the history empty, and the same prompt typed again on the next
      line is answered and stored. */
  lemma RetryAfterFailure()
    ensures var send: Remote := (turn: nat, h: seq<Entry>, p: string) =>
              if turn == 0 then Err("429 quota exceeded") else Ok("hello");
            Replayed([], ["hi", "hi"], send, (s: seq<Entry>) => |s|)
            == [Entry("user", ["hi"]), Entry("model", ["hello"])]
  {
    var send: Remote := (turn: nat, h: seq<Entry>, p: string) =>
      if turn == 0 then Err("429 quota exceeded") else Ok("hello");
    var size: Size := (s: seq<Entry>) => |s|;
    var lines := ["hi", "hi"];
    assert Recognize("hi") == Prompt("hi") by {
      assert Strip("hi") == "hi" by {
        StripRemovesPadding([], "hi", []);
        assert [] + "hi" + [] == "hi";
      }
    }
    assert Replayed([], lines[..1], send, size) == [] by {
      assert lines[..1][..0] == [];
    }
    assert lines[..2][..1] == lines[..1];
    var u := Entry("user", ["hi"]);
    var m := Entry("model", ["hello"]);
    assert Added([], "user", "hi", size) == [u] by {
      assert [] + [u] == [u] && !OverBudget([u], size);
    }
    assert Added([u], "model", "hello", size) == [u, m] by {
      assert [u] + [m] == [u, m] && !OverBudget([u, m], size);
    }
    assert lines[..2] == lines;
  }

  /** Within budget, a prompt and an answer given under the role "assistant"
      come back in order, the answer under the role "model". */
  lemma AssistantStoredAsModel()
    ensures Added(Added([], "user", "hi", (s: seq<Entry>) => |s|), "assistant", "hello", (s: seq<Entry>) => |s|)
            == [Entry("user", ["hi"]), Entry("model", ["hello"])]
  {
    var size: Size := (s: seq<Entry>) => |s|;
    var u := Entry("user", ["hi"]);
    var m := Entry("model", ["hello"]);
    assert [] + [u] == [u];
    assert [u] + [m] == [u, m];
    assert !OverBudget([u, m], size);
  }

  /** `ask_gemini(prompt)`: the remote call sees the history as it stands;
      only after it returns an answer are the prompt and the answer
      appended, and a failure is classified and leaves the history as it
      was. */
  method Ask(history: ConversationHistory, prompt: string, turn: nat, send: Remote) returns (reply: Reply)
    modifies history
    ensures var outcome := send(turn, old(history.entries), prompt);
            match outcome
            case Ok(answer) =>
              reply == Answered(answer) &&
              history.entries == Added(Added(old(history.entries), "user", prompt, history.size), "model", answer, history.size)
            case Err(message) =>
              reply == Failed(Classify(message)) && history.entries == old(history.entries)
  {
    var formatted := history.Formatted();
    var outcome := send(turn, formatted, prompt);
    match outcome
    case Ok(answer) =>
      history.Add("user", prompt);
      history.Add("model", answer);
      reply := Answered(answer);
    case Err(message) =>
      reply := Failed(Classify(message));
  }

  /** The body of `main`'s loop for one line read: blank lines, `/help` and
      `/history` leave the history alone, `/clear` empties it, `/quit` stops
      the loop, and any other line goes to the model unmodified. */
  method HandleLine(history: ConversationHistory, line: string, turn: nat, send: Remote) returns (quit: bool)
    modifies history
    ensures quit <==> Recognize(line) == Quit
    ensures history.entries == AfterLine(old(history.entries), line, turn, send, history.size)
  {
    quit := false;
    match Recognize(line)
    case Blank =>
    case Quit =>
      quit := true;
    case Help =>
    case Clear =>
      history.Clear();
    case ShowHistory =>
    case Prompt(text) =>
      var _ := Ask(history, text, turn, send);
  }

  /** What one line does to the history, in terms of the loop's own tests
      on `line.strip().lower()`: a whitespace-only line, `/quit`, `/help` and
      `/history` leave it as it is, `/clear` empties it, and any other line is
      sent, unstripped, in an exchange with the remote model on the history
      as it stands. */
  lemma AfterLineMeaning(h: seq<Entry>, line: string, turn: nat, send: Remote, size: Size)
    ensures AllSpace(line) ==> AfterLine(h, line, turn, send, size) == h
    ensures !AllSpace(line) && Keyword(line) == "/clear" ==> AfterLine(h, line, turn, send, size) == []
    ensures !AllSpace(line) && Keyword(line) in {"/quit", "/help", "/history"} ==>
              AfterLine(h, line, turn, send, size) == h
    ensures !AllSpace(line) && Keyword(line) !in {"/quit", "/help", "/clear", "/history"} ==>
              AfterLine(h, line, turn, send, size) == Exchanged(h, line, send(turn, h, line), size)
  {
    RecognizeMeaning(line);
  }

  /** Replaying one more line applies that line to the replay so far. */
  lemma ReplayedStep(h: seq<Entry>, lines: seq<string>, i: nat, send: Remote, size: Size)
    requires i < |lines|
    ensures Replayed(h, lines[..i + 1], send, size)
            == AfterLine(Replayed(h, lines[..i], send, size), lines[i], i, send, size)
  {
    var done := lines[..i + 1];
    assert done[..i] == lines[..i] && done[i] == lines[i];
  }

  /** A line that is not `/quit` is read and replayed, and the count of lines
      before the first quit moves past it. */
  lemma NextLine(h: seq<Entry>, lines: seq<string>, i: nat, send: Remote, size: Size)
    requires i < |lines| && !Recognize(lines[i]).Quit?
    ensures LinesBeforeQuit(lines[i..]) == 1 + LinesBeforeQuit(lines[i + 1..])
    ensures Replayed(h, lines[..i + 1], send, size)
            == AfterLine(Replayed(h, lines[..i], send, size), lines[i], i, send, size)
  {
    assert lines[i..][1..] == lines[i + 1..];
    ReplayedStep(h, lines, i, send, size);
  }

  /** At a `/quit` line no more lines are read. */
  lemma QuitStopsSession(h: seq<Entry>, lines: seq<string>, i: nat, send: Remote, size: Size)
    requires i < |lines| && Recognize(lines[i]).Quit?
    ensures LinesBeforeQuit(lines[i..]) == 0
    ensures AfterLine(h, lines[i], i, send, size) == h
  {
    assert lines[i..][0] == lines[i];
  }

  /** The number of lines `main` reads before the first `/quit`: all of
      them when none is a quit command. */
  function LinesBeforeQuit(lines: seq<string>): nat
    decreases |lines|
  {
    if lines == [] || Recognize(lines[0]).Quit? then 0
    else 1 + LinesBeforeQuit(lines[1..])
  }

  /** `LinesBeforeQuit` is the position of the first quit command, or the
      number of lines when there is none. */
  lemma {:induction false} LinesBeforeQuitMeaning(lines: seq<string>)
    ensures var n := LinesBeforeQuit(lines);
            n <= |lines| &&
            (forall j :: 0 <= j < n ==> !Recognize(lines[j]).Quit?) &&
            (n < |lines| ==> Recognize(lines[n]).Quit?)
    decreases |lines|
  {
    if lines != [] && !Recognize(lines[0]).Quit? {
      LinesBeforeQuitMeaning(lines[1..]);
      var n := LinesBeforeQuit(lines);
      forall j | 0 <= j < n ensures !Recognize(lines[j]).Quit? {
        if j > 0 {
          assert lines[j] == lines[1..][j - 1];
        }
      }
      if n < |lines| {
        assert lines[n] == lines[1..][n - 1];
      }
    }
  }

  /** `main`'s loop over the lines the user types, until `/quit` or the end of
      input. It reads the lines up to the first quit command; the history is
      then the replay of the lines read, and a history of whole alternating
      exchanges stays one. */
  method Session(history: ConversationHistory, lines: seq<string>, send: Remote) returns (read: nat)
    modifies history
    ensures read == LinesBeforeQuit(lines) && read <= |lines|
    ensures history.entries == Replayed(old(history.entries), lines[..read], send, history.size)
    ensures Alternating(old(history.entries)) && |old(history.entries)| % 2 == 0 ==>
              Alternating(history.entries) && |history.entries| % 2 == 0
  {
    read := 0;
    while read < |lines|
      invariant read <= |lines|
      invariant LinesBeforeQuit(lines) == read + LinesBeforeQuit(lines[read..])
      invariant history.entries == Replayed(old(history.entries), lines[..read], send, history.size)
    {
      ghost var before := history.entries;
      var quit := HandleLine(history, lines[read], read, send);
      if quit {
        QuitStopsSession(before, lines, read, send, history.size);
        break;
      }
      NextLine(old(history.entries), lines, read, send, history.size);
      read := read + 1;
    }
    if Alternating(old(history.entries)) && |old(history.entries)| % 2 == 0 {
      ReplayedKeepsAlternation(old(history.entries), lines[..read], send, history.size);
    }
  }
}
