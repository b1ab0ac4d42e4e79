/** The key decoder of the editor: how the raw integer codes delivered by
    the terminal are grouped into keys. Codes arrive as a finite sequence;
    each key consumes a fixed number of them. */
module Keys {
  import opened Rows
  import opened Outcomes

  // Codes the decoder matches against. The curses key constants are the
  // values the ncurses library gives them.
  const Bel := 7            // C-g, `ascii.BEL`
  const CtrlD := 4
  const CtrlH := 8
  const Lf := 10
  const Vt := 11            // C-k, `ascii.VT`
  const Cr := 13            // `ascii.CR`
  const Si := 15            // C-o, `ascii.SI`
  const Nak := 21           // C-u, `ascii.NAK`
  const Esc := 27
  const Del := 127          // `ascii.DEL`
  const KeyEol := 335       // `curses.KEY_EOL`
  const KeyEnter := 343     // `curses.KEY_ENTER`
  const KeyCancel := 355    // `curses.KEY_CANCEL`
  const KeyEnd := 360       // `curses.KEY_END`
  const KeyExit := 361      // `curses.KEY_EXIT`
  const KeySdc := 383       // `curses.KEY_SDC`

  // Second and third codes of the escape sequences.
  const SS3 := 79           // 'O'
  const CSI := 91           // '['

  /** The logical keys the decoder tells apart. */
  datatype Key =
    | Insert(ch: char)      // a printable character or a decoded two-byte character
    | Enter
    | Backspace
    | DeleteForward         // C-d, or ESC [ 3 x
    | CutToEol              // C-k
    | Paste                 // C-u
    | OpenLine              // C-o
    | Quit                  // C-g
    | Home                  // ESC O H
    | End                   // ESC O F
    | PageUp                // ESC [ 5 x
    | PageDown              // ESC [ 6 x
    | Up                    // ESC [ A
    | Down                  // ESC [ B
    | Right                 // ESC [ C
    | Left                  // ESC [ D
    | Ignored               // ESC O x with an unknown x: nothing happens
    | Unrecognized          // anything else: the terminal beeps

  /** What one call of the decoder makes of the codes still to be read. */
  datatype Decoded =
    | Complete(key: Key, used: nat)
    | Malformed(fault: Fault, used: nat)
    | Incomplete            // the codes ran out inside a key

  /** Lead byte of a two-byte UTF-8 sequence (section 4 of RFC 3629). */
  predicate IsLead2(b: int) { 0xC2 <= b <= 0xDF }

  /** Continuation byte of a UTF-8 sequence (section 4 of RFC 3629). */
  predicate IsTail(b: int) { 0x80 <= b <= 0xBF }

  /** The code point of a two-byte sequence: the low five bits of the lead
      followed by the low six bits of the tail (section 3 of RFC 3629). */
  function Utf8Decode2(lead: int, tail: int): (cp: int)
    requires IsLead2(lead) && IsTail(tail)
    ensures 0x80 <= cp <= 0x7FF
  {
    (lead - 0xC0) * 64 + (tail - 0x80)
  }

  /** The two bytes that encode a code point in 0x80..0x7FF (section 3 of RFC 3629). */
  function Utf8Encode2(cp: int): (bytes: seq<int>)
    requires 0x80 <= cp <= 0x7FF
    ensures |bytes| == 2 && IsLead2(bytes[0]) && IsTail(bytes[1])
  {
    [0xC0 + cp / 64, 0x80 + cp % 64]
  }

  lemma Utf8DecodeEncode(cp: int)
    requires 0x80 <= cp <= 0x7FF
    ensures Utf8Decode2(Utf8Encode2(cp)[0], Utf8Encode2(cp)[1]) == cp
  {
  }

  lemma Utf8EncodeDecode(lead: int, tail: int)
    requires IsLead2(lead) && IsTail(tail)
    ensures Utf8Encode2(Utf8Decode2(lead, tail)) == [lead, tail]
  {
    var cp := Utf8Decode2(lead, tail);
    assert cp / 64 == lead - 0xC0 && cp % 64 == tail - 0x80;
  }

  /** The key of an escape sequence `ESC b1 b2` and how many codes it takes
      in all, when `ESC [ 3`, `ESC [ 5` and `ESC [ 6` also read (and
      discard) a fourth code. */
  function EscapeKey(b1: int, b2: int): (r: (Key, nat))
    ensures r.1 == 3 || r.1 == 4
    ensures r.1 == 4 <==> b1 == CSI && b2 in {51, 53, 54}
  {
    if b1 == SS3 then
      if b2 == 72 then (Home, 3)
      else if b2 == 70 then (End, 3)
      else (Ignored, 3)
    else if b1 == CSI then
      if b2 == 51 then (DeleteForward, 4)
      else if b2 == 53 then (PageUp, 4)
      else if b2 == 54 then (PageDown, 4)
      else if b2 == 65 then (Up, 3)
      else if b2 == 66 then (Down, 3)
      else if b2 == 67 then (Right, 3)
      else if b2 == 68 then (Left, 3)
      else (Unrecognized, 3)
    else (Unrecognized, 3)
  }

  /** The key of a code that is a key by itself (neither a printable
      character, a lead byte nor escape). */
  function SingleKey(c: int): Key
  {
    if c == KeyEnter || c == Lf || c == Cr then Enter
    else if c == CtrlH || c == Del || c == KeySdc then Backspace
    else if c == CtrlD || c == KeyCancel then DeleteForward
    else if c == Vt || c == KeyEol then CutToEol
    else if c == Nak then Paste
    else if c == Si then OpenLine
    else if c == Bel || c == KeyEnd || c == KeyExit then Quit
    else Unrecognized
  }

  /** The decoding half of `_get_chr`: read the first code and as many
      more as its kind of key needs. */
  function Decode(codes: seq<int>): (d: Decoded)
    ensures !d.Incomplete? ==> 1 <= d.used <= |codes| && d.used <= 4
    ensures d.Incomplete? <==>
      (codes == [] || (IsLead2(codes[0]) && |codes| < 2)
       || (codes[0] == Esc && (|codes| < 3 || (|codes| < 4 && EscapeKey(codes[1], codes[2]).1 == 4))))
  {
    if codes == [] then Incomplete
    else
      var c := codes[0];
      if 32 <= c < 127 then Complete(Insert(c as char), 1)
      else if 194 <= c < 224 then
        if |codes| < 2 then Incomplete
        else if !(0 <= codes[1] < 256) then Malformed(CodeOutOfRange, 2)
        else if !IsTail(codes[1]) then Malformed(InvalidUtf8, 2)
        else Complete(Insert(Utf8Decode2(c, codes[1]) as char), 2)
      else if c == Esc then
        if |codes| < 3 then Incomplete
        else
          var (k, n) := EscapeKey(codes[1], codes[2]);
          if |codes| < n then Incomplete else Complete(k, n)
      else Complete(SingleKey(c), 1)
  }

  /** Keys that have a code sequence; inserted characters are limited to
      what the decoder can produce. */
  predicate Encodable(k: Key)
  {
    k.Insert? ==> (32 <= k.ch as int < 127 || 0x80 <= k.ch as int <= 0x7FF)
  }

  /** The code sequence a terminal sends for a key (VT100 style for the
      escape sequences, `~` as their terminator). */
  function Encode(k: Key): (codes: seq<int>)
    requires Encodable(k)
    ensures 1 <= |codes| <= 4
  {
    match k
    case Insert(ch) => if ch as int < 127 then [ch as int] else Utf8Encode2(ch as int)
    case Enter => [Cr]
    case Backspace => [CtrlH]
    case DeleteForward => [CtrlD]
    case CutToEol => [Vt]
    case Paste => [Nak]
    case OpenLine => [Si]
    case Quit => [Bel]
    case Home => [Esc, SS3, 72]
    case End => [Esc, SS3, 70]
    case PageUp => [Esc, CSI, 53, 126]
    case PageDown => [Esc, CSI, 54, 126]
    case Up => [Esc, CSI, 65]
    case Down => [Esc, CSI, 66]
    case Right => [Esc, CSI, 67]
    case Left => [Esc, CSI, 68]
    case Ignored => [Esc, SS3, 0]
    case Unrecognized => [0]
  }

  /** Decoding a key's code sequence gives that key back and consumes
      exactly that sequence, whatever follows it. */
  lemma DecodeEncode(k: Key, rest: seq<int>)
    requires Encodable(k)
    ensures Decode(Encode(k) + rest) == Complete(k, |Encode(k)|)
  {
    var codes := Encode(k) + rest;
    if k.Insert? && k.ch as int >= 127 {
      Utf8DecodeEncode(k.ch as int);
      assert codes[0] == Encode(k)[0] && codes[1] == Encode(k)[1];
    } else {
      assert codes[..|Encode(k)|] == Encode(k);
    }
  }

  /** The decoder never looks past the codes of the key it returns: the same
      key comes out whatever follows them. */
  lemma DecodeIgnoresRest(codes: seq<int>, rest: seq<int>)
    requires !Decode(codes).Incomplete?
    ensures Decode(codes[..Decode(codes).used] + rest) == Decode(codes)
  {
    var n := Decode(codes).used;
    var codes' := codes[..n] + rest;
    assert forall i :: 0 <= i < n ==> codes'[i] == codes[i];
  }

  /** A printable ASCII code is one key of one code. */
  lemma PrintableTakesOne(codes: seq<int>)
    requires codes != [] && 32 <= codes[0] <= 126
    ensures Decode(codes) == Complete(Insert(codes[0] as char), 1)
  {
  }

  /** Every control key is one code; no code other than a printable one, a
      lead byte or escape reads a second code. */
  lemma ControlTakesOne(codes: seq<int>)
    requires codes != [] && !(32 <= codes[0] <= 126) && !IsLead2(codes[0]) && codes[0] != Esc
    ensures Decode(codes).Complete? && Decode(codes).used == 1
    ensures codes[0] in {KeyEnter, Lf, Cr} <==> Decode(codes).key == Enter
    ensures codes[0] in {CtrlH, Del, KeySdc} <==> Decode(codes).key == Backspace
    ensures codes[0] in {CtrlD, KeyCancel} <==> Decode(codes).key == DeleteForward
    ensures codes[0] in {Vt, KeyEol} <==> Decode(codes).key == CutToEol
    ensures codes[0] == Nak <==> Decode(codes).key == Paste
    ensures codes[0] == Si <==> Decode(codes).key == OpenLine
    ensures codes[0] in {Bel, KeyEnd, KeyExit} <==> Decode(codes).key == Quit
    ensures Decode(codes).key == Unrecognized <==>
      codes[0] !in {KeyEnter, Lf, Cr, CtrlH, Del, KeySdc, CtrlD, KeyCancel, Vt, KeyEol, Nak, Si, Bel, KeyEnd, KeyExit}
  {
  }

  /** A lead byte 194..223 takes exactly one more code: a continuation byte
      gives the character of section 3 of RFC 3629, anything else fails. */
  lemma LeadTakesTwo(codes: seq<int>)
    requires |codes| >= 2 && 194 <= codes[0] <= 223
    ensures Decode(codes).used == 2
    ensures Decode(codes).Complete? <==> IsTail(codes[1])
    ensures IsTail(codes[1]) ==> Decode(codes).key == Insert(Utf8Decode2(codes[0], codes[1]) as char)
  {
  }

  /** Escape takes two more codes, and one more again after `[ 3`, `[ 5`
      and `[ 6`, whatever that code is. `O H` is Home, `O F` End, `[ 3`
      delete-forward, `[ 5` and `[ 6` page up and down, `[ A` to `[ D` the
      arrows; an unknown `ESC [ x` and an `ESC y x` with y neither `O` nor
      `[` beep, an unknown `ESC O x` does nothing. */
  lemma EscapeTakesThreeOrFour(codes: seq<int>)
    requires |codes| >= 4 && codes[0] == Esc
    ensures Decode(codes).Complete?
    ensures Decode(codes).used == (if codes[1] == CSI && codes[2] in {51, 53, 54} then 4 else 3)
    ensures Decode(codes).key == Unrecognized <==>
      codes[1] != SS3 && !(codes[1] == CSI && codes[2] in {51, 53, 54, 65, 66, 67, 68})
    ensures Decode(codes).key == Ignored <==> codes[1] == SS3 && codes[2] != 72 && codes[2] != 70
    ensures Decode(codes).key == Home <==> codes[1] == SS3 && codes[2] == 72
    ensures Decode(codes).key == End <==> codes[1] == SS3 && codes[2] == 70
    ensures Decode(codes).key == DeleteForward <==> codes[1] == CSI && codes[2] == 51
    ensures Decode(codes).key == PageUp <==> codes[1] == CSI && codes[2] == 53
    ensures Decode(codes).key == PageDown <==> codes[1] == CSI && codes[2] == 54
    ensures Decode(codes).key == Up <==> codes[1] == CSI && codes[2] == 65
    ensures Decode(codes).key == Down <==> codes[1] == CSI && codes[2] == 66
    ensures Decode(codes).key == Right <==> codes[1] == CSI && codes[2] == 67
    ensures Decode(codes).key == Left <==> codes[1] == CSI && codes[2] == 68
  {
  }
}
