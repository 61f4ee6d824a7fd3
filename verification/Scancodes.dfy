/** Scancodes to keys, and keys to the terminals they were typed at. */
module Scancodes {
  import opened Words
  import opened TerminalSessions

  const PREFIX: byte := 0xe0
  const LEFT_SHIFT: byte := 0x2a
  const RIGHT_SHIFT: byte := 0x36

  /** The shift keys that are down, and whether the next byte belongs to a prefix. */
  datatype Decoder = Decoder(left: bool, right: bool, prefix: bool)

  const IDLE: Decoder := Decoder(false, false, false)

  function ControlFor(code: byte): byte {
    if code == 0x01 then ESCAPE
    else if code == 0x0e then BACKSPACE
    else if code == 0x0f then TAB
    else if code == 0x1c then ENTER
    else 0
  }

  /** The rows of the keyboard: the first code, the characters, and those with shift. */
  function Printable(code: byte, shift: bool): (c: char)
    ensures c == '\0' || IsShown(c)
  {
    if 0x02 <= code <= 0x0d then (if shift then "!@#$%^&*()_+" else "1234567890-=")[code - 0x02]
    else if 0x10 <= code <= 0x1b then (if shift then "QWERTYUIOP{}" else "qwertyuiop[]")[code - 0x10]
    else if 0x1e <= code <= 0x29 then (if shift then "ASDFGHJKL:\"~" else "asdfghjkl;'`")[code - 0x1e]
    else if 0x2b <= code <= 0x35 then (if shift then "|ZXCVBNM<>?" else "\\zxcvbnm,./")[code - 0x2b]
    else if code == 0x39 then ' '
    else '\0'
  }

  function KeyFor(code: byte, shift: bool): Option<Key> {
    if ControlFor(code) != 0 then Some(Control(code, ControlFor(code)))
    else if Printable(code, shift) != '\0' then Some(Text(code, Printable(code, shift)))
    else None
  }

  /** One byte: the decoder after it, and the key that was pressed, if any. */
  function Decode(d: Decoder, code: byte): (Decoder, Option<Key>) {
    if code == PREFIX then (d.(prefix := true), None)
    else if d.prefix then (d.(prefix := false), None)
    else if code % 0x80 == LEFT_SHIFT then (d.(left := code < 0x80), None)
    else if code % 0x80 == RIGHT_SHIFT then (d.(right := code < 0x80), None)
    else if code >= 0x80 then (d, None)
    else (d, KeyFor(code, d.left || d.right))
  }

  // ----- what the bytes of a keyboard mean

  /** A shift key is down from its own byte to that byte with the high bit, whatever comes between;
      the prefix makes the decoder ignore one byte. None of these types anything. */
  lemma ShiftAndPrefix(d: Decoder)
    ensures !d.prefix ==> Decode(d, 0x2a) == (d.(left := true), None) && Decode(d, 0xaa) == (d.(left := false), None)
    ensures !d.prefix ==> Decode(d, 0x36) == (d.(right := true), None) && Decode(d, 0xb6) == (d.(right := false), None)
    ensures Decode(d, 0xe0) == (d.(prefix := true), None)
    ensures forall code: byte :: code != 0xe0 ==> Decode(d.(prefix := true), code) == (d.(prefix := false), None)
  {
  }

  /** No other byte changes the decoder, and a byte with the high bit types nothing. */
  lemma OtherBytes(d: Decoder, code: byte)
    requires !d.prefix && code !in {0x2a, 0xaa, 0x36, 0xb6, 0xe0}
    ensures Decode(d, code).0 == d && (code >= 0x80 ==> Decode(d, code).1 == None)
  {
    hide KeyFor;
  }

  /** A row of keys types its characters from a code on: the upper ones while either shift key is down. */
  ghost predicate RowTypes(first: byte, lower: string, upper: string)
    requires first < 0x80
  {
    |lower| == |upper| &&
    forall i, d: Decoder :: 0 <= i < |lower| && first + i < 0x80 && !d.prefix ==>
      Decode(d, first + i) == (d, Some(Text(first + i, if d.left || d.right then upper[i] else lower[i])))
  }

  /** The rows of the keyboard, left to right. */
  lemma Rows()
    ensures RowTypes(0x02, "1234567890-=", "!@#$%^&*()_+")
    ensures RowTypes(0x10, "qwertyuiop[]", "QWERTYUIOP{}")
    ensures RowTypes(0x1e, "asdfghjkl;'`", "ASDFGHJKL:\"~")
    ensures RowTypes(0x2b, "\\zxcvbnm,./", "|ZXCVBNM<>?")
    ensures RowTypes(0x39, " ", " ")
  {
    RowIs(0x02, "1234567890-=", "!@#$%^&*()_+");
    RowIs(0x10, "qwertyuiop[]", "QWERTYUIOP{}");
    RowIs(0x1e, "asdfghjkl;'`", "ASDFGHJKL:\"~");
    RowIs(0x2b, "\\zxcvbnm,./", "|ZXCVBNM<>?");
    RowIs(0x39, " ", " ");
    hide RowTypes;
  }

  /** The characters of a row, where every key of it types one. */
  predicate RowShows(first: byte, lower: string, upper: string) {
    && |lower| == |upper| && first + |lower| <= 0x80
    && (forall i :: 0 <= i < |lower| ==>
          && Printable(first + i, false) == lower[i] && Printable(first + i, true) == upper[i]
          && lower[i] != '\0' && upper[i] != '\0'
          && first + i !in {0x01, 0x0e, 0x0f, 0x1c, 0x2a, 0x36})
  }

  lemma RowIs(first: byte, lower: string, upper: string)
    requires first < 0x80 && RowShows(first, lower, upper)
    ensures RowTypes(first, lower, upper)
  {
    hide Printable;
  }

  /** The keys that type a control, with or without shift; and no other byte types anything. */
  lemma Controls(d: Decoder, code: byte)
    requires !d.prefix && code < 0x80
    ensures code == 0x01 ==> Decode(d, code).1 == Some(Control(code, ESCAPE))
    ensures code == 0x0e ==> Decode(d, code).1 == Some(Control(code, BACKSPACE))
    ensures code == 0x0f ==> Decode(d, code).1 == Some(Control(code, TAB))
    ensures code == 0x1c ==> Decode(d, code).1 == Some(Control(code, ENTER))
    ensures code == 0 || code == 0x1d || code == 0x2a || 0x36 <= code <= 0x38 || code >= 0x3a ==>
              Decode(d, code).1 == None
  {
  }
}
