/** The logical key events shared by the decoder, the line editor and the
    history navigator (src/lib.rs `Key`), and the single-unit text restriction
    under which the editor's byte offsets and character counts agree. */
module Keys {

  /** Something or nothing; used for "no decision yet" (the input ran out). */
  datatype Option<+T> = None | Some(value: T)

  /** One logical input event. */
  datatype Key =
    | NA
    | Char(c: char)
    | Enter
    | Backspace
    | ArrowUp
    | ArrowDown
    | ArrowRight
    | ArrowLeft
    | CtrlBackspace
    | CtrlArrowRight
    | CtrlArrowLeft

  /** A character that UTF-8 encodes in one byte. */
  predicate IsAsciiChar(c: char) {
    c as int < 128
  }

  /** Text whose every character is one byte long, so that a character index
      is also a byte offset. */
  predicate IsAscii(s: seq<char>) {
    forall i :: 0 <= i < |s| ==> IsAsciiChar(s[i])
  }

  /** A key whose insertion keeps the text single-unit. */
  predicate IsAsciiKey(k: Key) {
    k.Char? ==> IsAsciiChar(k.c)
  }

  lemma AsciiConcat(a: seq<char>, b: seq<char>)
    requires IsAscii(a) && IsAscii(b)
    ensures IsAscii(a + b)
  {
    forall i | 0 <= i < |a + b| ensures IsAsciiChar((a + b)[i]) {
      if i >= |a| { assert (a + b)[i] == b[i - |a|]; }
    }
  }

  predicate AllAsciiKeys(keys: seq<Key>) {
    forall i :: 0 <= i < |keys| ==> IsAsciiKey(keys[i])
  }
}
