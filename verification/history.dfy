/** The history navigator (src/lib.rs `pushln`): the line editor plus recall
    of earlier lines. Up and Down move a recall index `hpos` over
    [0, |history|], where |history| stands for the line being typed afresh.
    A recalled entry is edited in a private working copy (a "shadow"), kept
    for the rest of the session; the stored history only changes at Enter,
    when a non-empty active line is appended. */
module History {
  import opened Keys
  import Editor
  import LineReader

  /** One more than the largest `usize`. */
  const USIZE_LIMIT: int := 0x1_0000_0000_0000_0000

  /** `a.wrapping_sub(b)` on `usize`. */
  function WrappingSub(a: nat, b: nat): (r: nat)
    requires a < USIZE_LIMIT && b < USIZE_LIMIT
    ensures r < USIZE_LIMIT
    ensures b <= a ==> r == a - b
    ensures a < b ==> r + (b - a) == USIZE_LIMIT
  {
    (a - b) % USIZE_LIMIT
  }

  /** `a.saturating_sub(b)` on `usize`. */
  function SaturatingSub(a: nat, b: nat): (r: nat)
    ensures r <= a
    ensures b <= a ==> r + b == a
    ensures a < b ==> r == 0
  {
    if a < b then 0 else a - b
  }

  /** The buffer the editor works on (the `buf` reference of lib.rs:85 and
      lib.rs:103-112): the fresh line, or working copy `k`. */
  datatype Active = Fresh | Shadow(k: nat)

  /** A `pushln` session between two keys. `shadows` is `local_history`:
      `shadows[k]` is the working copy of the entry `k` steps back from the
      newest, `history[|history| - 1 - k]`. */
  datatype Session = Session(
    shadows: seq<seq<char>>,
    draft: seq<char>,
    active: Active,
    hpos: nat,
    pos: nat)

  /** What `pushln` returns, or the session still waiting for keys. */
  datatype Outcome =
    | Reading(session: Session)
    | Submitted(history: seq<seq<char>>, line: seq<char>)

  /** A history the session can hold: a `Vec` length, single-unit entries. */
  predicate GoodHistory(history: seq<seq<char>>) {
    && |history| < USIZE_LIMIT
    && forall i :: 0 <= i < |history| ==> IsAscii(history[i])
  }

  /** The buffer a recall index selects: the fresh line at |history|, else the
      working copy of that entry. */
  function Selected(history: seq<seq<char>>, hpos: nat): Active
    requires hpos <= |history|
  {
    if hpos == |history| then Fresh else Shadow(|history| - 1 - hpos)
  }

  predicate ActiveInRange(s: Session) {
    s.active.Shadow? ==> s.active.k < |s.shadows|
  }

  function ActiveBuffer(s: Session): seq<char>
    requires ActiveInRange(s)
  {
    match s.active
    case Fresh => s.draft
    case Shadow(k) => s.shadows[k]
  }

  predicate AsciiBuffers(s: Session) {
    && IsAscii(s.draft)
    && forall k :: 0 <= k < |s.shadows| ==> IsAscii(s.shadows[k])
  }

  /** The session invariant. Because Up moves one entry at a time, the copies
      made so far are exactly those of the entries |history| - |shadows| ..
      |history| - 1, and `hpos` never goes below the oldest of them; the active
      buffer is the one `hpos` selects, and the cursor lies inside it. */
  predicate Inv(history: seq<seq<char>>, s: Session) {
    && GoodHistory(history)
    && |s.shadows| <= |history|
    && |history| - |s.shadows| <= s.hpos <= |history|
    && s.active == Selected(history, s.hpos)
    && ActiveInRange(s)
    && AsciiBuffers(s)
    && s.pos <= |ActiveBuffer(s)|
  }

  /** Every working copy still equals the entry it was copied from. */
  predicate Pristine(history: seq<seq<char>>, s: Session)
    requires |s.shadows| <= |history|
  {
    forall k :: 0 <= k < |s.shadows| ==> s.shadows[k] == history[|history| - 1 - k]
  }

  /** The session `pushln` starts with (lib.rs:81-85). */
  function Start(history: seq<seq<char>>): (s: Session)
    requires GoodHistory(history)
    ensures Inv(history, s)
    ensures ActiveBuffer(s) == [] && s.pos == 0
    ensures s.hpos == |history| && |s.shadows| == 0
  {
    Session([], [], Fresh, |history|, 0)
  }

  /** The `readch` call of lib.rs:91 applied to the active buffer. */
  function Edit(s: Session, key: Key): (r: Session)
    requires ActiveInRange(s) && AsciiBuffers(s) && s.pos <= |ActiveBuffer(s)| && IsAsciiKey(key)
    ensures ActiveInRange(r) && AsciiBuffers(r) && r.pos <= |ActiveBuffer(r)|
    ensures r.active == s.active && r.hpos == s.hpos && |r.shadows| == |s.shadows|
    ensures Editor.Line(ActiveBuffer(r), r.pos)
            == Editor.Apply(Editor.Line(ActiveBuffer(s), s.pos), key)
    ensures s.active.Shadow? ==> r.draft == s.draft
    ensures forall k :: 0 <= k < |s.shadows| && s.active != Shadow(k) ==> r.shadows[k] == s.shadows[k]
  {
    var l := Editor.Apply(Editor.Line(ActiveBuffer(s), s.pos), key);
    match s.active
    case Fresh => s.(draft := l.buf, pos := l.pos)
    case Shadow(k) => s.(shadows := s.shadows[k := l.buf], pos := l.pos)
  }

  /** Re-point the editor after Up or Down (lib.rs:102-113): reuse the working
      copy at distance `last - hpos` if there is one, else copy the stored
      entry, else return to the fresh line; the cursor goes to the end. The
      requires is the session invariant loosened by the one step `hpos` has
      just moved. */
  function Reselect(history: seq<seq<char>>, s: Session): (r: Session)
    requires GoodHistory(history) && AsciiBuffers(s)
    requires |s.shadows| <= |history| && s.hpos <= |history|
    requires |history| - |s.shadows| <= s.hpos + 1
    ensures Inv(history, r)
    ensures r.pos == |ActiveBuffer(r)|
    ensures r.hpos == s.hpos && r.draft == s.draft
    ensures s.shadows <= r.shadows
    ensures |r.shadows| == |s.shadows| + (if s.hpos + |s.shadows| < |history| then 1 else 0)
    ensures |r.shadows| > |s.shadows| ==>
              r.shadows[|s.shadows|] == history[|history| - 1 - |s.shadows|]
  {
    var last := SaturatingSub(|history|, 1);
    var localPos := WrappingSub(last, s.hpos);
    if localPos < |s.shadows| then
      s.(active := Shadow(localPos), pos := |s.shadows[localPos]|)
    else if s.hpos < |history| then
      var shadows := s.shadows + [history[s.hpos]];
      // the copy pushed at lib.rs:108 lands at the index lib.rs:109 takes
      assert localPos == |s.shadows|;
      s.(shadows := shadows, active := Shadow(localPos), pos := |shadows[localPos]|)
    else
      s.(active := Fresh, pos := |s.draft|)
  }

  /** The recall index after Up (lib.rs:93). */
  function Older(hpos: nat): nat {
    SaturatingSub(hpos, 1)
  }

  /** The recall index after Down (lib.rs:94-98). */
  function Newer(history: seq<seq<char>>, hpos: nat): nat {
    if hpos < |history| then hpos + 1 else hpos
  }

  /** One pass of the `pushln` loop for a key other than Enter (lib.rs:89-113). */
  function Step(history: seq<seq<char>>, s: Session, key: Key): (r: Session)
    requires Inv(history, s) && IsAsciiKey(key) && key != Enter
    ensures Inv(history, r)
    ensures key.ArrowUp? ==> r.hpos + (if s.hpos > 0 then 1 else 0) == s.hpos
    ensures key.ArrowDown? ==> r.hpos == s.hpos + (if s.hpos < |history| then 1 else 0)
    ensures key.ArrowUp? || key.ArrowDown? ==>
              && r.pos == |ActiveBuffer(r)|
              && r.draft == s.draft
              && s.shadows <= r.shadows
              && (|r.shadows| > |s.shadows| ==> r.hpos < |history| && r.shadows == s.shadows + [history[r.hpos]])
    ensures !(key.ArrowUp? || key.ArrowDown?) ==>
              && r.hpos == s.hpos && r.active == s.active && |r.shadows| == |s.shadows|
              && (s.active.Shadow? ==> r.draft == s.draft)
              && (forall k :: 0 <= k < |s.shadows| && s.active != Shadow(k) ==> r.shadows[k] == s.shadows[k])
              && Editor.Line(ActiveBuffer(r), r.pos)
                 == Editor.Apply(Editor.Line(ActiveBuffer(s), s.pos), key)
  {
    var e := Edit(s, key);
    match key
    case ArrowUp => Reselect(history, e.(hpos := Older(e.hpos)))
    case ArrowDown => Reselect(history, e.(hpos := Newer(history, e.hpos)))
    case _ => e
  }

  /** The end of `pushln` (lib.rs:116-123): an empty active line returns ""
      and stores nothing; any other is appended to the history and the stored
      copy returned. */
  function Submit(history: seq<seq<char>>, s: Session): (r: Outcome)
    requires Inv(history, s)
    ensures r.Submitted? && r.line == ActiveBuffer(s)
    ensures r.line == [] ==> r.history == history
    ensures r.line != [] ==> r.history == history + [r.line]
    ensures r.line != [] ==> r.history[|r.history| - 1] == r.line
  {
    var buf := ActiveBuffer(s);
    if |buf| == 0 then Submitted(history, [])
    else
      var history' := history + [buf];
      Submitted(history', history'[|history'| - 1])
  }

  /** The `pushln` loop over the keys as they arrive: stop at the first Enter,
      which goes through `readch` (a no-op on the line) before the loop breaks. */
  function Run(history: seq<seq<char>>, s: Session, keys: seq<Key>): (r: Outcome)
    requires Inv(history, s) && AllAsciiKeys(keys)
    ensures r.Submitted? <==> Enter in keys
    ensures r.Reading? ==> Inv(history, r.session)
    ensures r.Submitted? && r.line == [] ==> r.history == history
    ensures r.Submitted? && r.line != [] ==> r.history == history + [r.line]
    decreases |keys|
  {
    if |keys| == 0 then Reading(s)
    else if keys[0] == Enter then Submit(history, Edit(s, Enter))
    else
      assert keys == [keys[0]] + keys[1..];
      Run(history, Step(history, s, keys[0]), keys[1..])
  }

  /** `pushln(prompt, history)` fed with `keys`. */
  function PushLine(history: seq<seq<char>>, keys: seq<Key>): (r: Outcome)
    requires GoodHistory(history) && AllAsciiKeys(keys)
    ensures r.Submitted? <==> Enter in keys
    ensures r.Submitted? && r.line == [] ==> r.history == history
    ensures r.Submitted? && r.line != [] ==> r.history == history + [r.line]
  {
    Run(history, Start(history), keys)
  }

  /** What `pushln` returns: the buffer active when the first Enter arrives,
      submitted as `Submit` says; keys after that Enter are never read. */
  lemma {:induction false} RunAtFirstEnter(history: seq<seq<char>>, s: Session, pre: seq<Key>, post: seq<Key>)
    requires Inv(history, s) && AllAsciiKeys(pre) && AllAsciiKeys(post) && Enter !in pre
    ensures AllAsciiKeys(pre + [Enter] + post)
    ensures Run(history, s, pre).Reading?
    ensures Run(history, s, pre + [Enter] + post) == Submit(history, Run(history, s, pre).session)
    decreases |pre|
  {
    var keys := pre + [Enter] + post;
    LineReader.AsciiKeysConcat(pre, [Enter]);
    LineReader.AsciiKeysConcat(pre + [Enter], post);
    if |pre| == 0 {
      assert keys[0] == Enter;
      assert ActiveBuffer(Edit(s, Enter)) == ActiveBuffer(s);
    } else {
      assert keys[0] == pre[0];
      assert keys[1..] == pre[1..] + [Enter] + post;
      assert pre == [pre[0]] + pre[1..];
      RunAtFirstEnter(history, Step(history, s, pre[0]), pre[1..], post);
    }
  }

  // ---------------------------------------------------------------------------
  // The shadow copies.

  /** Where lib.rs:102 points after Up or Down: at a copy already made, at the
      slot the next copy will be pushed to, or past every copy when the fresh
      line is selected. The index is never more than one past the copies. */
  lemma LocalPosConsistent(history: seq<seq<char>>, s: Session, up: bool)
    requires Inv(history, s)
    ensures var h := if up then Older(s.hpos) else Newer(history, s.hpos);
            var localPos := WrappingSub(SaturatingSub(|history|, 1), h);
            && (h < |history| ==> localPos <= |s.shadows| && Selected(history, h) == Shadow(localPos))
            && (h < |history| && localPos == |s.shadows| ==> up && h + 1 == s.hpos)
            && (h == |history| ==> localPos >= |s.shadows|)
  {
  }

  /** Up and Down only ever add copies of stored entries: a session that
      has seen no edits still shows the stored entries, unchanged. */
  lemma RecallStepKeepsPristine(history: seq<seq<char>>, s: Session, key: Key)
    requires Inv(history, s) && Pristine(history, s) && (key.ArrowUp? || key.ArrowDown?)
    ensures Pristine(history, Step(history, s, key))
    ensures Step(history, s, key).draft == s.draft
  {
  }

  predicate RecallOnly(keys: seq<Key>) {
    forall i :: 0 <= i < |keys| ==> keys[i].ArrowUp? || keys[i].ArrowDown?
  }

  /** The copies are exactly those of the entries visited so far: after any
      key they reach back to the entry now selected and no further than the
      oldest one visited before. */
  lemma CopiesCoverVisited(history: seq<seq<char>>, s: Session, key: Key)
    requires Inv(history, s) && IsAsciiKey(key) && key != Enter
    ensures var r := Step(history, s, key);
            |r.shadows| == if |history| - r.hpos > |s.shadows| then |history| - r.hpos else |s.shadows|
  {
  }

  /** The lowest recall index a session reaches on keys before any Enter,
      counting the one it starts at. */
  function LowestRecall(history: seq<seq<char>>, s: Session, keys: seq<Key>): (m: nat)
    requires Inv(history, s) && AllAsciiKeys(keys) && Enter !in keys
    ensures m <= s.hpos
    decreases |keys|
  {
    if |keys| == 0 then s.hpos
    else
      assert keys == [keys[0]] + keys[1..];
      var m := LowestRecall(history, Step(history, s, keys[0]), keys[1..]);
      if m < s.hpos then m else s.hpos
  }

  /** Over a whole run, `local_history` holds one copy per distinct recalled
      entry: the copies reach from the newest entry back to the oldest one
      visited, and no further. */
  lemma {:induction false} CopiesCoverLowest(history: seq<seq<char>>, s: Session, keys: seq<Key>)
    requires Inv(history, s) && AllAsciiKeys(keys) && Enter !in keys
    ensures Run(history, s, keys).Reading?
    ensures var t := Run(history, s, keys).session;
            var low := LowestRecall(history, s, keys);
            |t.shadows| == if |history| - low > |s.shadows| then |history| - low else |s.shadows|
    decreases |keys|
  {
    if |keys| > 0 {
      assert keys == [keys[0]] + keys[1..];
      var s1 := Step(history, s, keys[0]);
      CopiesCoverVisited(history, s, keys[0]);
      CopiesCoverLowest(history, s1, keys[1..]);
    }
  }

  /** Browsing without editing: after any run of Up and Down keys every
      working copy equals its stored entry, the fresh line is kept, and the
      active buffer is the stored entry `hpos` names (or the fresh line). */
  lemma {:induction false} BrowsingShowsStored(history: seq<seq<char>>, s: Session, keys: seq<Key>)
    requires Inv(history, s) && Pristine(history, s) && RecallOnly(keys)
    ensures AllAsciiKeys(keys)
    ensures Run(history, s, keys).Reading?
    ensures var t := Run(history, s, keys).session;
            && Pristine(history, t)
            && t.draft == s.draft
            && ActiveBuffer(t) == (if t.hpos == |history| then s.draft else history[t.hpos])
    decreases |keys|
  {
    if |keys| == 0 {
      if s.hpos < |history| {
        assert ActiveBuffer(s) == s.shadows[|history| - 1 - s.hpos];
      }
    } else {
      assert keys == [keys[0]] + keys[1..];
      RecallStepKeepsPristine(history, s, keys[0]);
      BrowsingShowsStored(history, Step(history, s, keys[0]), keys[1..]);
    }
  }

  /** Down on the fresh line changes nothing but the cursor, which goes to
      the end of the line. */
  lemma DownOnFreshLine(history: seq<seq<char>>, s: Session)
    requires Inv(history, s) && s.hpos == |history|
    ensures Step(history, s, ArrowDown) == s.(pos := |s.draft|)
  {
  }

  /** Up then Down from the fresh line returns to it with its text intact. */
  lemma UpThenDownKeepsFreshLine(history: seq<seq<char>>, s: Session)
    requires Inv(history, s) && s.hpos == |history|
    ensures var t := Step(history, Step(history, s, ArrowUp), ArrowDown);
            t.active == Fresh && t.draft == s.draft && t.pos == |s.draft| && t.hpos == |history|
  {
  }

  /** A working copy, once made, is the one every later visit to that entry
      edits: returning to entry `h` selects the same copy, with its edits. */
  lemma RevisitReusesCopy(history: seq<seq<char>>, s: Session, key: Key)
    requires Inv(history, s) && (key.ArrowUp? || key.ArrowDown?)
    requires var h := Step(history, s, key).hpos;
             h < |history| && |history| - 1 - h < |s.shadows|
    ensures var t := Step(history, s, key);
            ActiveBuffer(t) == s.shadows[|history| - 1 - t.hpos]
  {
  }

  // ---------------------------------------------------------------------------
  // Without recall, `pushln` is `readln` on an empty line.

  predicate NoRecall(keys: seq<Key>) {
    forall i :: 0 <= i < |keys| ==> !keys[i].ArrowUp? && !keys[i].ArrowDown?
  }

  /** On keys without Up or Down the session edits its active buffer exactly
      as the simple reader edits its line, and submits what the reader
      returns. */
  lemma {:induction false} RunWithoutRecallIsReadFrom(history: seq<seq<char>>, s: Session, keys: seq<Key>)
    requires Inv(history, s) && AllAsciiKeys(keys) && NoRecall(keys)
    ensures var r := Run(history, s, keys);
            var l := LineReader.ReadFrom(Editor.Line(ActiveBuffer(s), s.pos), keys);
            && (r.Submitted? <==> l.Some?)
            && (r.Submitted? ==> r.line == l.value)
    decreases |keys|
  {
    if |keys| > 0 && keys[0] != Enter {
      assert keys == [keys[0]] + keys[1..];
      var t := Step(history, s, keys[0]);
      RunWithoutRecallIsReadFrom(history, t, keys[1..]);
    }
  }

  /** Typing a non-empty line and pressing Enter appends it to the history. */
  lemma TypedLineIsAppended(history: seq<seq<char>>, line: seq<char>)
    requires GoodHistory(history) && IsAscii(line) && line != []
    ensures AllAsciiKeys(LineReader.TypeKeys(line) + [Enter])
    ensures PushLine(history, LineReader.TypeKeys(line) + [Enter]) == Submitted(history + [line], line)
  {
    var keys := LineReader.TypeKeys(line) + [Enter];
    LineReader.TypingThenEnter([], line);
    assert [] + line == line;
    assert NoRecall(keys) by {
      forall i | 0 <= i < |keys| ensures !keys[i].ArrowUp? && !keys[i].ArrowDown? {
        if i < |line| { assert keys[i] == Char(line[i]); }
      }
    }
    RunWithoutRecallIsReadFrom(history, Start(history), keys);
  }

  // ---------------------------------------------------------------------------
  // Worked sessions.

  /** Recalling the oldest of two entries with two Ups shows it. */
  lemma RecallOldest()
    ensures GoodHistory(["alpha", "beta"])
    ensures var r := PushLine(["alpha", "beta"], [ArrowUp, ArrowUp]);
            r.Reading? && ActiveBuffer(r.session) == "alpha"
  {
  }

  /** The loop takes the first key and carries on with the rest. */
  lemma RunFirstKey(history: seq<seq<char>>, s: Session, k: Key, keys: seq<Key>)
    requires Inv(history, s) && IsAsciiKey(k) && k != Enter && AllAsciiKeys(keys)
    ensures AllAsciiKeys([k] + keys)
    ensures Run(history, s, [k] + keys) == Run(history, Step(history, s, k), keys)
  {
  }

  /** Two Ups select the working copy of the second-newest entry, with the
      cursor at its end. */
  lemma TwoUpsSelectSecondNewest(history: seq<seq<char>>)
    requires GoodHistory(history) && |history| >= 2
    ensures var s2 := Step(history, Step(history, Start(history), ArrowUp), ArrowUp);
            && s2.active == Shadow(1)
            && ActiveBuffer(s2) == history[|history| - 2]
            && s2.pos == |history[|history| - 2]|
  {
  }

  /** Typing at the end of a recalled copy extends that copy. */
  lemma TypeIntoRecalled(history: seq<seq<char>>, s: Session, c: char)
    requires Inv(history, s) && IsAsciiChar(c) && s.pos == |ActiveBuffer(s)|
    ensures ActiveBuffer(Step(history, s, Char(c))) == ActiveBuffer(s) + [c]
  {
  }

  /** Enter submits the active buffer. */
  lemma EnterSubmitsActive(history: seq<seq<char>>, s: Session)
    requires Inv(history, s) && ActiveBuffer(s) != []
    ensures AllAsciiKeys([Enter])
    ensures Run(history, s, [Enter]) == Submitted(history + [ActiveBuffer(s)], ActiveBuffer(s))
  {
  }

  /** Typing `c` at the end of the active buffer and pressing Enter submits
      the buffer with `c` appended. */
  lemma TypeThenSubmit(history: seq<seq<char>>, s: Session, c: char)
    requires Inv(history, s) && IsAsciiChar(c) && s.pos == |ActiveBuffer(s)|
    ensures AllAsciiKeys([Char(c), Enter])
    ensures var line := ActiveBuffer(s) + [c];
            Run(history, s, [Char(c), Enter]) == Submitted(history + [line], line)
  {
    TypeIntoRecalled(history, s, c);
    EnterSubmitsActive(history, Step(history, s, Char(c)));
    RunFirstKey(history, s, Char(c), [Enter]);
    assert [Char(c)] + [Enter] == [Char(c), Enter];
  }

  /** `pushln` starting with two Ups carries on from the session they leave. */
  lemma TwoUpsFirst(history: seq<seq<char>>, keys: seq<Key>)
    requires GoodHistory(history) && AllAsciiKeys(keys)
    ensures AllAsciiKeys([ArrowUp, ArrowUp] + keys)
    ensures PushLine(history, [ArrowUp, ArrowUp] + keys)
            == Run(history, Step(history, Step(history, Start(history), ArrowUp), ArrowUp), keys)
  {
    var s0 := Start(history);
    var s1 := Step(history, s0, ArrowUp);
    RunFirstKey(history, s1, ArrowUp, keys);
    RunFirstKey(history, s0, ArrowUp, [ArrowUp] + keys);
    assert [ArrowUp] + ([ArrowUp] + keys) == [ArrowUp, ArrowUp] + keys;
  }

  /** Recalling the second-newest entry, typing `c` and pressing Enter
      appends the edited text as a new entry; the stored entries are left as
      they were. */
  lemma EditedRecallIsAppended(history: seq<seq<char>>, c: char)
    requires GoodHistory(history) && |history| >= 2 && IsAsciiChar(c)
    ensures AllAsciiKeys([ArrowUp, ArrowUp, Char(c), Enter])
    ensures var line := history[|history| - 2] + [c];
            PushLine(history, [ArrowUp, ArrowUp, Char(c), Enter]) == Submitted(history + [line], line)
  {
    TwoUpsSelectSecondNewest(history);
    var s2 := Step(history, Step(history, Start(history), ArrowUp), ArrowUp);
    TypeThenSubmit(history, s2, c);
    TwoUpsFirst(history, [Char(c), Enter]);
    assert [ArrowUp, ArrowUp] + [Char(c), Enter] == [ArrowUp, ArrowUp, Char(c), Enter];
  }

  /** Submitting an empty line returns "" and leaves the history alone. */
  lemma EmptySubmitKeepsHistory()
    ensures GoodHistory(["x"])
    ensures PushLine(["x"], [Enter]) == Submitted(["x"], "")
  {
  }
}
