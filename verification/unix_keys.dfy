/** The Unix key decoder (src/unix.rs `read_key` and `parse_esc_seq`): raw
    terminal bytes to logical keys. The blocking one-byte read `getch` is
    replaced by taking the next byte of a sequence; when the sequence runs out
    before a key is decided the result is None (the source would block). */
module UnixKeys {
  import opened Keys
  import Editor

  newtype byte = b: int | 0 <= b < 256

  /** A decoded key and the number of bytes read to decide it. */
  datatype Decoded = Decoded(key: Key, used: nat)

  /** A table row: the key and the bytes that follow ESC for it. */
  datatype EscapeSequence = EscapeSequence(key: Key, bytes: seq<byte>)

  const ESC: byte := 27

  /** ESC_SEQ_LEN (unix.rs:39): the number of rows in the table. */
  const ESC_SEQ_LEN: nat := 6

  /** The read budget of unix.rs:20: one more than the number of rows. */
  const MAX_READS: nat := ESC_SEQ_LEN + 1

  /** ESC_SEQ_LIST (unix.rs:40-47), in declaration order:
      "[A" "[B" "[C" "[D" "[1;5C" "[1;5D". */
  const EscSeqList: seq<EscapeSequence> := [
    EscapeSequence(ArrowUp, [91, 65]),
    EscapeSequence(ArrowDown, [91, 66]),
    EscapeSequence(ArrowRight, [91, 67]),
    EscapeSequence(ArrowLeft, [91, 68]),
    EscapeSequence(CtrlArrowRight, [91, 49, 59, 53, 67]),
    EscapeSequence(CtrlArrowLeft, [91, 49, 59, 53, 68])
  ]

  /** The keys the table can produce. */
  predicate IsTableKey(k: Key) {
    k.ArrowUp? || k.ArrowDown? || k.ArrowRight? || k.ArrowLeft? || k.CtrlArrowRight? || k.CtrlArrowLeft?
  }

  /** Row `e` matches read index `pos` holding byte `ch`: `pos` is the row's
      last index and the row's byte there is `ch` (unix.rs:23-27). The read
      byte is compared with every longer row's byte at `pos`, but a row can
      only match at its last index, so only the byte read there decides. */
  predicate Completes(e: EscapeSequence, pos: nat, ch: byte) {
    pos < |e.bytes| && e.bytes[pos] == ch && |e.bytes| - 1 == pos
  }

  /** The `for` loop of unix.rs:22-30 from row `from` on: the key of the
      first row, in declaration order, that matches. */
  function FirstMatch(table: seq<EscapeSequence>, from: nat, pos: nat, ch: byte): (r: Option<Key>)
    requires from <= |table|
    ensures r.None? <==> forall i :: from <= i < |table| ==> !Completes(table[i], pos, ch)
    ensures r.Some? ==>
              exists j :: from <= j < |table| && Completes(table[j], pos, ch) && table[j].key == r.value
                          && forall i :: from <= i < j ==> !Completes(table[i], pos, ch)
    decreases |table| - from
  {
    if from == |table| then None
    else if pos < |table[from].bytes| && table[from].bytes[pos] == ch && |table[from].bytes| - 1 == pos then
      Some(table[from].key)
    else FirstMatch(table, from + 1, pos, ch)
  }

  /** The table evaluated: only index 1 (the arrows) and index 4 (the Ctrl
      arrows) are the last index of a row, so the bytes read at other indices
      never decide a match. */
  function TableMatch(pos: nat, ch: byte): Option<Key> {
    if pos == 1 && ch == 65 then Some(ArrowUp)
    else if pos == 1 && ch == 66 then Some(ArrowDown)
    else if pos == 1 && ch == 67 then Some(ArrowRight)
    else if pos == 1 && ch == 68 then Some(ArrowLeft)
    else if pos == 4 && ch == 67 then Some(CtrlArrowRight)
    else if pos == 4 && ch == 68 then Some(CtrlArrowLeft)
    else None
  }

  /** The key the table yields for byte `ch` read at index `pos`, if any. */
  function MatchAt(pos: nat, ch: byte): (r: Option<Key>)
    ensures r == TableMatch(pos, ch)
    ensures r.Some? ==> IsTableKey(r.value)
  {
    FirstMatchIsTableMatch(pos, ch);
    FirstMatch(EscSeqList, 0, pos, ch)
  }

  /** The `while` loop of unix.rs:20-32 from read index `pos` on; `bytes` are
      the bytes after ESC. Each index reads one byte, which is compared with
      every longer row's byte at that index, but only a row ending there can
      match; the row search is taken in its evaluated form `TableMatch`
      (equal to `MatchAt`, the search as written). */
  function ParseFrom(bytes: seq<byte>, pos: nat): (r: Option<Decoded>)
    requires pos <= MAX_READS && pos <= |bytes|
    ensures r.None? ==> |bytes| < MAX_READS
    ensures r.Some? ==> pos <= r.value.used <= MAX_READS && 0 < r.value.used <= |bytes|
    ensures r.Some? ==> r.value.key == NA || IsTableKey(r.value.key)
    ensures r.Some? && r.value.key == NA ==> r.value.used == MAX_READS
    decreases MAX_READS - pos
  {
    if pos == MAX_READS then Some(Decoded(NA, pos))
    else if pos == |bytes| then None
    else
      match TableMatch(pos, bytes[pos])
      case Some(k) => Some(Decoded(k, pos + 1))
      case None => ParseFrom(bytes, pos + 1)
  }

  /** `parse_esc_seq` (unix.rs:16-35) on the bytes after ESC: the first table
      key to match, or NA once the read budget is spent. */
  function ParseEscSeq(bytes: seq<byte>): (r: Option<Decoded>)
    ensures r.Some? ==> 1 <= r.value.used <= MAX_READS && r.value.used <= |bytes|
    ensures r.Some? ==> r.value.key == NA || IsTableKey(r.value.key)
    ensures r.Some? && r.value.key == NA ==> r.value.used == MAX_READS
    ensures r.None? ==> |bytes| < MAX_READS
  {
    ParseFrom(bytes, 0)
  }

  /** The loops of unix.rs:20-34 as written. */
  method ParseEscSeqLoop(bytes: seq<byte>) returns (r: Option<Decoded>)
    ensures r == ParseEscSeq(bytes)
  {
    var pos := 0;
    while pos < ESC_SEQ_LEN + 1
      invariant pos <= MAX_READS && pos <= |bytes|
      invariant ParseFrom(bytes, pos) == ParseEscSeq(bytes)
      decreases MAX_READS - pos
    {
      if pos == |bytes| {
        return None;
      }
      var ch := bytes[pos];
      var i := 0;
      while i < |EscSeqList|
        invariant i <= |EscSeqList|
        invariant FirstMatch(EscSeqList, i, pos, ch) == MatchAt(pos, ch)
        decreases |EscSeqList| - i
      {
        var e := EscSeqList[i];
        if pos < |e.bytes| {
          if e.bytes[pos] == ch && |e.bytes| - 1 == pos {
            return Some(Decoded(e.key, pos + 1));
          }
        }
        i := i + 1;
      }
      pos := pos + 1;
    }
    return Some(Decoded(NA, pos));
  }

  /** `read_key` (unix.rs:5-14): one byte decides the key, except ESC, which
      hands the following bytes to `parse_esc_seq`. */
  function ReadKey(bytes: seq<byte>): (r: Option<Decoded>)
    ensures r.None? <==> |bytes| == 0 || (bytes[0] == ESC && ParseEscSeq(bytes[1..]).None?)
    ensures r.Some? ==> 1 <= r.value.used <= |bytes|
    ensures r.Some? && bytes[0] != ESC ==> r.value.used == 1
    ensures r.Some? && bytes[0] == ESC ==> r.value.key == NA || IsTableKey(r.value.key)
    ensures r.Some? && r.value.key.Char? ==> r.value.key.c as int == bytes[0] as int
    ensures r.Some? && bytes[0] != ESC ==>
              && (r.value.key == CtrlBackspace <==> bytes[0] == 8 || bytes[0] == 23)
              && (r.value.key == Enter <==> bytes[0] == 10)
              && (r.value.key == Backspace <==> bytes[0] == 127)
              && (r.value.key.Char? <==> 31 < bytes[0] && bytes[0] != 127)
              && (r.value.key == NA <==> bytes[0] < 32 && bytes[0] != 8 && bytes[0] != 10 && bytes[0] != 23)
  {
    if |bytes| == 0 then None
    else
      var b := bytes[0];
      if b == 8 || b == 23 then Some(Decoded(CtrlBackspace, 1))
      else if b == 10 then Some(Decoded(Enter, 1))
      else if b == ESC then
        match ParseEscSeq(bytes[1..])
        case None => None
        case Some(d) => Some(Decoded(d.key, d.used + 1))
      else if b == 127 then Some(Decoded(Backspace, 1))
      else if b > 31 then Some(Decoded(Char(b as int as char), 1))
      else Some(Decoded(NA, 1))
  }

  // ---------------------------------------------------------------------------
  // The table, evaluated.

  /** Searching the table in declaration order gives the evaluated table. */
  lemma FirstMatchIsTableMatch(pos: nat, ch: byte)
    ensures FirstMatch(EscSeqList, 0, pos, ch) == TableMatch(pos, ch)
  {
  }

  /** A reference for `parse_esc_seq`: with `b` the bytes after ESC, an arrow
      when b[1] is A-D, else a Ctrl arrow when b[4] is C or D, else NA after
      seven bytes; None when the bytes run out before that. */
  function EscReference(b: seq<byte>): Option<Decoded> {
    if |b| < 2 then None
    else if b[1] == 65 then Some(Decoded(ArrowUp, 2))
    else if b[1] == 66 then Some(Decoded(ArrowDown, 2))
    else if b[1] == 67 then Some(Decoded(ArrowRight, 2))
    else if b[1] == 68 then Some(Decoded(ArrowLeft, 2))
    else if |b| < 5 then None
    else if b[4] == 67 then Some(Decoded(CtrlArrowRight, 5))
    else if b[4] == 68 then Some(Decoded(CtrlArrowLeft, 5))
    else if |b| < 7 then None
    else Some(Decoded(NA, 7))
  }

  /** The loop agrees with the reference on every byte sequence. */
  lemma ParseEscSeqIsReference(b: seq<byte>)
    ensures ParseEscSeq(b) == EscReference(b)
  {
  }

  /** A table key is returned on the read that matched, so exactly the bytes
      up to that index are consumed; no earlier index matched. NA is returned
      only after every one of the seven reads failed to match. */
  lemma ConsumedThroughMatch(bytes: seq<byte>)
    requires ParseEscSeq(bytes).Some?
    ensures var d := ParseEscSeq(bytes).value;
            && (d.key != NA ==> MatchAt(d.used - 1, bytes[d.used - 1]) == Some(d.key))
            && (forall p :: 0 <= p < d.used - 1 ==> MatchAt(p, bytes[p]).None?)
            && (d.key == NA ==> d.used == MAX_READS && MatchAt(d.used - 1, bytes[d.used - 1]).None?)
  {
  }

  // ---------------------------------------------------------------------------
  // Encoding keys as the bytes a terminal sends.

  /** The keys a byte sequence can produce: a Char must be a one-byte
      printable code other than DEL. */
  predicate Encodable(k: Key) {
    k.Char? ==> 32 <= k.c as int < 256 && k.c as int != 127
  }

  /** Bytes that decode to `k`. For CtrlBackspace both 8 and 23 decode; 23 is
      chosen. */
  function Encode(k: Key): (bs: seq<byte>)
    requires Encodable(k)
  {
    match k
    case NA => [0]
    case Char(c) => [c as int as byte]
    case Enter => [10]
    case Backspace => [127]
    case CtrlBackspace => [23]
    case ArrowUp => [ESC, 91, 65]
    case ArrowDown => [ESC, 91, 66]
    case ArrowRight => [ESC, 91, 67]
    case ArrowLeft => [ESC, 91, 68]
    case CtrlArrowRight => [ESC, 91, 49, 59, 53, 67]
    case CtrlArrowLeft => [ESC, 91, 49, 59, 53, 68]
  }

  /** ESC, any byte, then A-D: an arrow after three bytes. */
  lemma DecodeArrow(bs: seq<byte>)
    requires |bs| >= 3 && bs[0] == ESC && TableMatch(1, bs[2]).Some?
    ensures ReadKey(bs) == Some(Decoded(TableMatch(1, bs[2]).value, 3))
  {
  }

  /** ESC, a byte that is not A-D at index 2, then C or D at index 5: a Ctrl
      arrow after six bytes. */
  lemma DecodeCtrlArrow(bs: seq<byte>)
    requires |bs| >= 6 && bs[0] == ESC && TableMatch(1, bs[2]).None? && TableMatch(4, bs[5]).Some?
    ensures ReadKey(bs) == Some(Decoded(TableMatch(4, bs[5]).value, 6))
  {
  }

  /** An escape sequence of the table, followed by anything, decodes to its
      key after exactly its own bytes. */
  lemma DecodeEscape(k: Key, rest: seq<byte>)
    requires IsTableKey(k)
    ensures ReadKey(Encode(k) + rest) == Some(Decoded(k, |Encode(k)|))
  {
  }

  /** Decoding an encoded key gives it back, having read exactly its bytes,
      whatever follows. */
  lemma DecodeEncode(k: Key, rest: seq<byte>)
    requires Encodable(k)
    ensures ReadKey(Encode(k) + rest) == Some(Decoded(k, |Encode(k)|))
  {
  }

  /** All the keys a byte sequence decodes to, until the bytes run out. */
  function DecodeAll(bytes: seq<byte>): (keys: seq<Key>)
    ensures |keys| <= |bytes|
    decreases |bytes|
  {
    match ReadKey(bytes)
    case None => []
    case Some(d) => [d.key] + DecodeAll(bytes[d.used..])
  }

  function EncodeAll(keys: seq<Key>): seq<byte>
    requires forall i :: 0 <= i < |keys| ==> Encodable(keys[i])
  {
    if |keys| == 0 then [] else Encode(keys[0]) + EncodeAll(keys[1..])
  }

  /** A stream of encoded keys decodes to those keys, in order. */
  lemma {:induction false} DecodeAllEncodeAll(keys: seq<Key>)
    requires forall i :: 0 <= i < |keys| ==> Encodable(keys[i])
    ensures DecodeAll(EncodeAll(keys)) == keys
    decreases |keys|
  {
    if |keys| > 0 {
      var rest := EncodeAll(keys[1..]);
      DecodeEncode(keys[0], rest);
      assert (Encode(keys[0]) + rest)[|Encode(keys[0])|..] == rest;
      DecodeAllEncodeAll(keys[1..]);
      assert keys == [keys[0]] + keys[1..];
    }
  }

  // ---------------------------------------------------------------------------
  // What escape sequences do to the line.

  /** Nothing that starts with ESC ever changes the text: the escape path
      yields only cursor and history keys or NA, and the bytes it reads are
      dropped, never inserted. */
  lemma EscapeNeverEdits(l: Editor.Line, bytes: seq<byte>)
    requires Editor.Valid(l) && |bytes| > 0 && bytes[0] == ESC && ReadKey(bytes).Some?
    ensures IsAsciiKey(ReadKey(bytes).value.key)
    ensures Editor.Apply(l, ReadKey(bytes).value.key).buf == l.buf
  {
  }

  /** "ESC [ 1 ; 5 C" is Ctrl+Right and "ESC [ C" is Right. */
  lemma CtrlArrowExample()
    ensures ReadKey([27, 91, 49, 59, 53, 67]) == Some(Decoded(CtrlArrowRight, 6))
    ensures ReadKey([27, 91, 67]) == Some(Decoded(ArrowRight, 3))
  {
  }

  /** ESC followed by "[" and bytes that match no row is read for seven
      bytes after ESC and yields NA, which leaves the line as it was: none of
      the bytes read is inserted. */
  lemma UnknownEscapeIsDropped(l: Editor.Line, bs: seq<byte>)
    requires Editor.Valid(l)
    requires |bs| >= 8 && bs[0] == ESC && bs[1] == 91
    requires !(65 <= bs[2] <= 68) && bs[5] != 67 && bs[5] != 68
    ensures ReadKey(bs) == Some(Decoded(NA, 8))
    ensures Editor.Apply(l, ReadKey(bs).value.key) == l
  {
  }

  /** The byte read before a row's last index never decides a match: "ESC x A"
      is Up as well. */
  lemma FirstByteUnchecked()
    ensures ReadKey([27, 120, 65]) == Some(Decoded(ArrowUp, 3))
  {
  }
}
