/** The simple line reader (src/lib.rs `readln`): the editor folded over the
    keys as they arrive, starting with the cursor after the existing text and
    stopping at the first Enter. The blocking key source is the sequence of
    keys; when it runs out before an Enter the reader has no result yet. */
module LineReader {
  import opened Keys
  import Editor

  /** Apply keys to the line up to and including the first Enter. */
  function ReadFrom(l: Editor.Line, keys: seq<Key>): (r: Option<seq<char>>)
    requires Editor.Valid(l) && AllAsciiKeys(keys)
    ensures r.Some? <==> Enter in keys
    ensures r.Some? ==> IsAscii(r.value)
    ensures r.Some? ==> |r.value| <= |l.buf| + |keys|
    decreases |keys|
  {
    if |keys| == 0 then None
    else
      var l' := Editor.Apply(l, keys[0]);
      if keys[0] == Enter then Some(l'.buf)
      else
        assert keys == [keys[0]] + keys[1..];
        ReadFrom(l', keys[1..])
  }

  /** `readln(prompt, buf)`: the cursor starts at the end of `buf`. */
  function ReadLine(buf: seq<char>, keys: seq<Key>): (r: Option<seq<char>>)
    requires IsAscii(buf) && AllAsciiKeys(keys)
    ensures r.Some? <==> Enter in keys
    ensures r.Some? ==> IsAscii(r.value)
  {
    ReadFrom(Editor.Line(buf, |buf|), keys)
  }

  /** The keys that type the characters of `s`, in order. */
  function TypeKeys(s: seq<char>): (keys: seq<Key>)
    ensures |keys| == |s|
    ensures forall i :: 0 <= i < |s| ==> keys[i] == Char(s[i])
  {
    if |s| == 0 then [] else [Char(s[0])] + TypeKeys(s[1..])
  }

  lemma AsciiKeysConcat(a: seq<Key>, b: seq<Key>)
    requires AllAsciiKeys(a) && AllAsciiKeys(b)
    ensures AllAsciiKeys(a + b)
  {
    forall i | 0 <= i < |a + b| ensures IsAsciiKey((a + b)[i]) {
      if i >= |a| { assert (a + b)[i] == b[i - |a|]; }
    }
  }

  lemma TypeKeysAscii(s: seq<char>)
    requires IsAscii(s)
    ensures AllAsciiKeys(TypeKeys(s))
  {
  }

  lemma AppendFirst(a: seq<char>, s: seq<char>)
    requires |s| > 0
    ensures a + [s[0]] + s[1..] == a + s
  {
    assert s == [s[0]] + s[1..];
  }

  /** Reading past a typed character at the end of the text. */
  lemma ReadCharAtEnd(l: Editor.Line, c: char, rest: seq<Key>)
    requires Editor.Valid(l) && l.pos == |l.buf| && IsAsciiChar(c) && AllAsciiKeys(rest)
    ensures AllAsciiKeys([Char(c)] + rest)
    ensures Editor.Valid(Editor.Line(l.buf + [c], |l.buf| + 1))
    ensures ReadFrom(l, [Char(c)] + rest) == ReadFrom(Editor.Line(l.buf + [c], |l.buf| + 1), rest)
  {
    AsciiKeysConcat([Char(c)], rest);
    var keys := [Char(c)] + rest;
    assert keys[1..] == rest;
    var l' := Editor.Insert(l, c);
    assert l'.buf == l.buf + [c];
  }

  /** Typing characters at the end of the text appends them, and the cursor
      stays at the end. */
  lemma {:induction false} TypingAtEndAppends(l: Editor.Line, s: seq<char>, rest: seq<Key>)
    requires Editor.Valid(l) && l.pos == |l.buf| && IsAscii(s) && AllAsciiKeys(rest)
    ensures AllAsciiKeys(TypeKeys(s) + rest)
    ensures ReadFrom(l, TypeKeys(s) + rest) == ReadFrom(Editor.Line(l.buf + s, |l.buf + s|), rest)
    decreases |s|
  {
    TypeKeysAscii(s);
    AsciiKeysConcat(TypeKeys(s), rest);
    AsciiConcat(l.buf, s);
    if |s| == 0 {
      assert TypeKeys(s) + rest == rest;
      assert l.buf + s == l.buf;
    } else {
      var tail := TypeKeys(s[1..]) + rest;
      assert TypeKeys(s) + rest == [Char(s[0])] + tail;
      assert IsAscii(s[1..]);
      AsciiConcat(l.buf, [s[0]]);
      TypeKeysAscii(s[1..]);
      AsciiKeysConcat(TypeKeys(s[1..]), rest);
      ReadCharAtEnd(l, s[0], tail);
      var l' := Editor.Line(l.buf + [s[0]], |l.buf| + 1);
      TypingAtEndAppends(l', s[1..], rest);
      AppendFirst(l.buf, s);

    }
  }

  /** Typing characters and pressing Enter returns the existing text followed
      by those characters. */
  lemma TypingThenEnter(buf: seq<char>, s: seq<char>)
    requires IsAscii(buf) && IsAscii(s)
    ensures AllAsciiKeys(TypeKeys(s) + [Enter])
    ensures ReadLine(buf, TypeKeys(s) + [Enter]) == Some(buf + s)
  {
    TypingAtEndAppends(Editor.Line(buf, |buf|), s, [Enter]);
    assert IsAscii(buf + s);
  }

  /** Keys after the first Enter are never read. */
  lemma {:induction false} StopsAtFirstEnter(l: Editor.Line, keys: seq<Key>, later: seq<Key>)
    requires Editor.Valid(l) && AllAsciiKeys(keys) && AllAsciiKeys(later) && Enter in keys
    ensures AllAsciiKeys(keys + later)
    ensures ReadFrom(l, keys + later) == ReadFrom(l, keys)
    decreases |keys|
  {
    var all := keys + later;
    AsciiKeysConcat(keys, later);
    assert all[0] == keys[0];
    if keys[0] != Enter {
      assert keys == [keys[0]] + keys[1..];
      assert all[1..] == keys[1..] + later;
      StopsAtFirstEnter(Editor.Apply(l, keys[0]), keys[1..], later);
    }
  }
}
