/** The line-buffer editor: one application of a key to a text buffer and a
    cursor (src/lib.rs `readch`, with the blocking key read replaced by the key
    itself). Offsets count characters; on single-unit (ASCII) text these are
    the byte offsets the source uses. */
module Editor {
  import opened Keys

  /** The text being edited and the cursor, an offset between characters
      (0 is before the first, |buf| after the last). */
  datatype Line = Line(buf: seq<char>, pos: nat)

  /** The cursor is a split point of the text, and the text is single-unit. */
  predicate Valid(l: Line) {
    l.pos <= |l.buf| && IsAscii(l.buf)
  }

  // ---------------------------------------------------------------------------
  // Word boundaries: a word delimiter is the space character and nothing else.

  /** `i` is the index of the last space in `s`, or 0 when `s` has none. */
  predicate IsLastSpace(s: seq<char>, i: nat) {
    if ' ' in s then i < |s| && s[i] == ' ' && forall j :: i < j < |s| ==> s[j] != ' '
    else i == 0
  }

  /** `j` is where a word-right move from `p` stops: the first space strictly
      after `p`, or the end of the text; and `p` itself when already at the end. */
  predicate IsNextStop(s: seq<char>, p: nat, j: nat) {
    if p >= |s| then j == p
    else p < j <= |s| && (j < |s| ==> s[j] == ' ') && forall k :: p < k < j ==> s[k] != ' '
  }

  /** The backward scan of lib.rs:257 and lib.rs:262. */
  function LastSpace(s: seq<char>): (i: nat)
    ensures IsLastSpace(s, i)
    ensures |s| > 0 ==> i < |s|
  {
    if |s| == 0 then 0
    else if s[|s| - 1] == ' ' then |s| - 1
    else
      assert ' ' in s ==> ' ' in s[..|s| - 1];
      LastSpace(s[..|s| - 1])
  }

  /** The forward scan of lib.rs:266-271: step once, stop on a space or at the end. */
  function NextStop(s: seq<char>, p: nat): (j: nat)
    requires p <= |s|
    ensures IsNextStop(s, p, j)
    decreases |s| - p
  {
    if p == |s| then p
    else if p + 1 < |s| && s[p + 1] == ' ' then p + 1
    else
      NextStop(s, p + 1)
  }

  lemma LastSpaceUnique(s: seq<char>, i: nat, k: nat)
    requires IsLastSpace(s, i) && IsLastSpace(s, k)
    ensures i == k
  {
  }

  lemma NextStopUnique(s: seq<char>, p: nat, j: nat, k: nat)
    requires IsNextStop(s, p, j) && IsNextStop(s, p, k)
    ensures j == k
  {
  }

  // ---------------------------------------------------------------------------
  // The editing rules, one per key.

  /** Char(c): insert at the cursor and advance past it (lib.rs:238-241). */
  function Insert(l: Line, c: char): (r: Line)
    requires Valid(l) && IsAsciiChar(c)
    ensures Valid(r)
    ensures |r.buf| == |l.buf| + 1 && r.pos == l.pos + 1
    ensures r.buf[l.pos] == c
    ensures r.buf[..l.pos] == l.buf[..l.pos] && r.buf[l.pos + 1..] == l.buf[l.pos..]
  {
    var buf := l.buf[..l.pos] + [c] + l.buf[l.pos..];
    assert buf[l.pos + 1..] == l.buf[l.pos..];
    Line(buf, l.pos + 1)
  }

  /** Backspace: remove the character left of the cursor, if any (lib.rs:242-247). */
  function DeleteBack(l: Line): (r: Line)
    requires Valid(l)
    ensures Valid(r)
    ensures l.pos == 0 ==> r == l
    ensures l.pos > 0 ==>
              && r.pos == l.pos - 1
              && |r.buf| == |l.buf| - 1
              && r.buf[..r.pos] == l.buf[..r.pos]
              && r.buf[r.pos..] == l.buf[l.pos..]
  {
    if l.pos > 0 then
      var p := l.pos - 1;
      Line(l.buf[..p] + l.buf[p + 1..], p)
    else l
  }

  /** ArrowLeft: one step left, saturating at 0 (lib.rs:248-250). */
  function MoveLeft(l: Line): (r: Line)
    requires Valid(l)
    ensures Valid(r) && r.buf == l.buf
    ensures l.pos > 0 ==> r.pos + 1 == l.pos
    ensures l.pos == 0 ==> r.pos == 0
  {
    l.(pos := if l.pos == 0 then 0 else l.pos - 1)
  }

  /** ArrowRight: one step right, stopping at the end of the text (lib.rs:251-255). */
  function MoveRight(l: Line): (r: Line)
    requires Valid(l)
    ensures Valid(r) && r.buf == l.buf
    ensures l.pos < |l.buf| ==> r.pos == l.pos + 1
    ensures l.pos == |l.buf| ==> r.pos == l.pos
  {
    if l.pos < |l.buf| then l.(pos := l.pos + 1) else l
  }

  /** CtrlBackspace: cut from the last space left of the cursor (that space
      included) up to the cursor; with no such space, cut to the start
      (lib.rs:256-260). */
  function DeleteWord(l: Line): (r: Line)
    requires Valid(l)
    ensures Valid(r)
    ensures IsLastSpace(l.buf[..l.pos], r.pos)
    ensures r.pos <= l.pos && |r.buf| == |l.buf| - (l.pos - r.pos)
    ensures r.buf == l.buf[..r.pos] + l.buf[l.pos..]
  {
    var idx := LastSpace(l.buf[..l.pos]);
    Line(l.buf[..idx] + l.buf[l.pos..], idx)
  }

  /** CtrlArrowLeft: move to the last space left of the cursor, or to 0
      (lib.rs:261-263). */
  function WordLeft(l: Line): (r: Line)
    requires Valid(l)
    ensures Valid(r) && r.buf == l.buf
    ensures IsLastSpace(l.buf[..l.pos], r.pos)
    ensures l.pos > 0 ==> r.pos < l.pos
    ensures l.pos == 0 ==> r.pos == 0
  {
    l.(pos := LastSpace(l.buf[..l.pos]))
  }

  /** CtrlArrowRight: move to the next space right of the cursor, or to the
      end (lib.rs:264-272). */
  function WordRight(l: Line): (r: Line)
    requires Valid(l)
    ensures Valid(r) && r.buf == l.buf
    ensures IsNextStop(l.buf, l.pos, r.pos)
  {
    l.(pos := NextStop(l.buf, l.pos))
  }

  /** The loop of lib.rs:266-271 as written, on the text and a cursor. */
  method MoveWordRight(buf: seq<char>, start: nat) returns (pos: nat)
    requires start <= |buf|
    ensures IsNextStop(buf, start, pos)
    ensures pos == NextStop(buf, start)
  {
    pos := start;
    while pos < |buf|
      invariant start <= pos <= |buf|
      invariant forall k :: start < k < pos ==> buf[k] != ' '
      invariant start < pos < |buf| ==> buf[pos] != ' '
      decreases |buf| - pos
    {
      pos := pos + 1;
      if pos < |buf| && buf[pos] == ' ' {
        break;
      }
    }
    NextStopUnique(buf, start, pos, NextStop(buf, start));
  }

  /** One `readch` step: the editing rule the key selects. Up, Down, Enter and
      NA leave the line alone (lib.rs:273); the history navigator and the
      readers act on them afterwards. */
  function Apply(l: Line, key: Key): (r: Line)
    requires Valid(l) && IsAsciiKey(key)
    ensures Valid(r)
    ensures !(key.Char? || key.Backspace? || key.CtrlBackspace?) ==> r.buf == l.buf
    ensures key.NA? || key.Enter? || key.ArrowUp? || key.ArrowDown? ==> r == l
    ensures |r.buf| <= |l.buf| + 1
  {
    match key
    case Char(c) => Insert(l, c)
    case Backspace => DeleteBack(l)
    case ArrowLeft => MoveLeft(l)
    case ArrowRight => MoveRight(l)
    case CtrlBackspace => DeleteWord(l)
    case CtrlArrowLeft => WordLeft(l)
    case CtrlArrowRight => WordRight(l)
    case _ => l
  }

  // ---------------------------------------------------------------------------
  // Relations between the rules.

  /** Backspace undoes an insertion. */
  lemma BackspaceUndoesInsert(l: Line, c: char)
    requires Valid(l) && IsAsciiChar(c)
    ensures Apply(Apply(l, Char(c)), Backspace) == l
  {
  }

  /** Left then Right restores an interior or end cursor. */
  lemma LeftThenRight(l: Line)
    requires Valid(l) && l.pos > 0
    ensures Apply(Apply(l, ArrowLeft), ArrowRight) == l
  {
  }

  /** Right then Left restores any cursor that is not at the end. */
  lemma RightThenLeft(l: Line)
    requires Valid(l) && l.pos < |l.buf|
    ensures Apply(Apply(l, ArrowRight), ArrowLeft) == l
  {
  }

  /** Word delete moves the cursor exactly as a word-left move does and cuts
      the text it passed over. */
  lemma DeleteWordIsWordLeftAndCut(l: Line)
    requires Valid(l)
    ensures Apply(l, CtrlBackspace).pos == Apply(l, CtrlArrowLeft).pos
    ensures Apply(l, CtrlBackspace).buf
            == l.buf[..Apply(l, CtrlArrowLeft).pos] + l.buf[l.pos..]
  {
  }

  /** What a word delete removes: the last space before the cursor and every
      character after it up to the cursor, or everything before the cursor
      when there is no space there. The removed stretch holds at most one
      space, at its head. */
  lemma DeleteWordRemoved(l: Line)
    requires Valid(l)
    ensures var r := Apply(l, CtrlBackspace);
            && (' ' in l.buf[..l.pos] ==> l.buf[r.pos] == ' ' && ' ' !in l.buf[r.pos + 1..l.pos])
            && (' ' !in l.buf[..l.pos] ==> r.pos == 0 && r.buf == l.buf[l.pos..])
  {
  }

  /** Word-right at the end of the text is a no-op. */
  lemma WordRightAtEnd(l: Line)
    requires Valid(l) && l.pos == |l.buf|
    ensures Apply(l, CtrlArrowRight) == l
  {
  }

  /** Word-right stops on the first space after the cursor, or at the end. */
  lemma WordRightExample()
    ensures Apply(Line("ab cd", 0), CtrlArrowRight) == Line("ab cd", 2)
    ensures Apply(Line("ab cd", 2), CtrlArrowRight) == Line("ab cd", 5)
    ensures Apply(Line("ab  cd", 0), CtrlArrowRight) == Line("ab  cd", 2)
    ensures Apply(Line("ab  cd", 2), CtrlArrowRight) == Line("ab  cd", 3)
  {
    assert IsAscii("ab cd") && IsAscii("ab  cd");
    NextStopUnique("ab cd", 0, NextStop("ab cd", 0), 2);
    NextStopUnique("ab cd", 2, NextStop("ab cd", 2), 5);
    NextStopUnique("ab  cd", 0, NextStop("ab  cd", 0), 2);
    NextStopUnique("ab  cd", 2, NextStop("ab  cd", 2), 3);
  }

  /** Deleting the word before "world" in "hello world" with the cursor at
      the end removes " world", the separating space included. */
  lemma DeleteWordExample()
    ensures Apply(Line("hello world", 11), CtrlBackspace) == Line("hello", 5)
  {
    var l := Line("hello world", 11);
    assert IsAscii(l.buf);
    var r := Apply(l, CtrlBackspace);
    assert l.buf[..11][5] == ' ';
    assert ' ' !in l.buf[..11][6..];
    assert IsLastSpace(l.buf[..11], 5);
    LastSpaceUnique(l.buf[..11], r.pos, 5);
    assert r.buf == l.buf[..5] + l.buf[11..];
  }
}
