/** The escape scanner of `testRegExp.cpp`. */
module ScanString {
  import opened Options

  /** Code units. The scanned buffer holds ASCII, the text that is built any 16-bit units. */
  type Unit = u: nat | u < 0x10000

  const BACKSLASH: Unit := 0x5c
  const LETTER_U: Unit := 0x75

  /** What `sscanf` with "%04x" makes of the four units after a `\u`, if it can make anything of them. */
  type ReadHex = seq<Unit> -> Option<nat>

  /** The unit that a backslash and one other unit stand for: the unit itself, but for eight characters of the switch. */
  function ShortEscape(c: Unit): Unit {
    match c
    case 0x30 => 0x00  // 0
    case 0x61 => 0x07  // a
    case 0x62 => 0x08  // b
    case 0x66 => 0x0c  // f
    case 0x6e => 0x0a  // n
    case 0x72 => 0x0d  // r
    case 0x74 => 0x09  // t
    case 0x76 => 0x0b  // v
    case _ => c
  }

  // ----- Escaped text as a sequence of pieces -----

  datatype Piece =
    | Plain(c: Unit)             // the unit itself
    | Short(c: Unit)             // backslash, unit
    | Hex(digits: seq<Unit>)     // backslash, u, four units

  predicate ValidPiece(p: Piece, term: Unit, hex: ReadHex) {
    match p
    case Plain(c) => c != term && c != BACKSLASH
    case Short(c) => term != BACKSLASH && c != LETTER_U
    case Hex(digits) => term != BACKSLASH && |digits| == 4 && hex(digits).Some?
  }

  predicate ValidPieces(ps: seq<Piece>, term: Unit, hex: ReadHex) {
    forall i :: 0 <= i < |ps| ==> ValidPiece(ps[i], term, hex)
  }

  function RenderPiece(p: Piece): seq<Unit> {
    match p
    case Plain(c) => [c]
    case Short(c) => [BACKSLASH, c]
    case Hex(digits) => [BACKSLASH, LETTER_U] + digits
  }

  function Render(ps: seq<Piece>): seq<Unit> {
    if ps == [] then [] else RenderPiece(ps[0]) + Render(ps[1..])
  }

  function UnitOf(p: Piece, hex: ReadHex): Unit {
    match p
    case Plain(c) => c
    case Short(c) => ShortEscape(c)
    case Hex(digits) => if hex(digits).Some? then hex(digits).value % 0x10000 else 0
  }

  function UnitsOf(ps: seq<Piece>, hex: ReadHex): seq<Unit> {
    if ps == [] then [] else [UnitOf(ps[0], hex)] + UnitsOf(ps[1..], hex)
  }

  // ----- Scanning -----

  type Scan = Option<(nat, seq<Unit>)>

  function Later(scan: Scan, width: nat, u: Unit): Scan {
    match scan
    case None => None
    case Some((i, units)) => Some((width + i, [u] + units))
  }

  /** Where the terminator is, and the text before it; `None` if the scan fails. */
  function Scanned(s: seq<Unit>, term: Unit, hex: ReadHex): (r: Scan)
    ensures r.Some? ==> r.value.0 < |s| && s[r.value.0] == term
    decreases |s|, 1
  {
    if s == [] then None
    else if s[0] == term then Some((0, []))
    else if s[0] == BACKSLASH then ScannedEscape(s, term, hex)
    else Later(Scanned(s[1..], term, hex), 1, s[0])
  }

  function ScannedEscape(s: seq<Unit>, term: Unit, hex: ReadHex): (r: Scan)
    requires s != []
    ensures r.Some? ==> r.value.0 < |s| && s[r.value.0] == term
    decreases |s|, 0
  {
    if |s| < 2 then None
    else if s[1] != LETTER_U then Later(Scanned(s[2..], term, hex), 2, ShortEscape(s[1]))
    else if |s| < 6 || hex(s[2..6]).None? then None
    else Later(Scanned(s[6..], term, hex), 6, hex(s[2..6]).value % 0x10000)
  }

  /** The text that is built on the way, whether the scan succeeds in the end or not. */
  function Built(s: seq<Unit>, term: Unit, hex: ReadHex): seq<Unit>
    decreases |s|, 1
  {
    if s == [] || s[0] == term then []
    else if s[0] == BACKSLASH then BuiltEscape(s, term, hex)
    else [s[0]] + Built(s[1..], term, hex)
  }

  function BuiltEscape(s: seq<Unit>, term: Unit, hex: ReadHex): seq<Unit>
    requires s != []
    decreases |s|, 0
  {
    if |s| < 2 then []
    else if s[1] != LETTER_U then [ShortEscape(s[1])] + Built(s[2..], term, hex)
    else if |s| < 6 || hex(s[2..6]).None? then []
    else [hex(s[2..6]).value % 0x10000] + Built(s[6..], term, hex)
  }

  class StringBuilder {
    var text: seq<Unit>

    constructor ()
      ensures text == []
    {
      text := [];
    }

    method Append(c: Unit)
      modifies this
      ensures text == old(text) + [c]
    {
      text := text + [c];
    }
  }

  /** Where the scan still to come will end, or -1. */
  function EndOf(scan: Scan, from: int): int {
    if scan.None? then -1 else from + scan.value.0
  }

  /** The outcome of the scan: the result, and the builder's text. */
  function Outcome(s: seq<Unit>, term: Unit, hex: ReadHex, from: int, text: seq<Unit>): (int, seq<Unit>) {
    (EndOf(Scanned(s, term, hex), from), text + Built(s, term, hex))
  }

  /** The same where the first unit is a backslash that has been read. */
  function OutcomeOfEscape(s: seq<Unit>, term: Unit, hex: ReadHex, from: int, text: seq<Unit>): (int, seq<Unit>)
    requires s != []
  {
    (EndOf(ScannedEscape(s, term, hex), from), text + BuiltEscape(s, term, hex))
  }

  /** The scan still to come, where `escape` says that the unit before was an unescaped backslash. */
  function Remaining(
      buffer: seq<Unit>, i: nat, escape: bool, term: Unit, hex: ReadHex, text: seq<Unit>): (int, seq<Unit>)
    requires i <= |buffer| && (escape ==> i >= 1)
  {
    if escape then OutcomeOfEscape(buffer[i - 1..], term, hex, i - 1, text)
    else Outcome(buffer[i..], term, hex, i, text)
  }

  method ScanString(buffer: seq<Unit>, builder: StringBuilder, termChar: Unit, hex: ReadHex) returns (r: int)
    modifies builder
    ensures builder.text == old(builder.text) + Built(buffer, termChar, hex)
    ensures match Scanned(buffer, termChar, hex)
            case None => r == -1
            case Some((i, units)) => r == i && Built(buffer, termChar, hex) == units
  {
    hide Remaining, Scanned, Built;
    ScanStarts(buffer, termChar, hex, builder.text);
    ghost var goal := Remaining(buffer, 0, false, termChar, hex, builder.text);
    var escape := false;
    var i := 0;
    while i < |buffer|
      invariant 0 <= i <= |buffer| && (escape ==> i >= 1)
      invariant goal == Remaining(buffer, i, escape, termChar, hex, builder.text)
    {
      var c := buffer[i];
      if escape {
        EscapeStep(buffer, i, termChar, hex, builder.text);
        match c {
          case 0x30 => c := 0x00;
          case 0x61 => c := 0x07;
          case 0x62 => c := 0x08;
          case 0x66 => c := 0x0c;
          case 0x6e => c := 0x0a;
          case 0x72 => c := 0x0d;
          case 0x74 => c := 0x09;
          case 0x76 => c := 0x0b;
          case 0x75 =>
            if i + 4 >= |buffer| {
              return -1;
            }
            var charValue := hex(buffer[i + 1..i + 5]);
            if charValue.None? {
              return -1;
            }
            c := charValue.value % 0x10000;
            i := i + 4;
          case _ =>
        }
        builder.Append(c);
        escape := false;
      } else {
        PlainStep(buffer, i, termChar, hex, builder.text);
        if c == termChar {
          return i;
        }
        if c == BACKSLASH {
          escape := true;
        } else {
          builder.Append(c);
        }
      }
      i := i + 1;
    }
    ScanEnds(buffer, escape, termChar, hex, builder.text);
    return -1;
  }

  lemma ScanStarts(s: seq<Unit>, term: Unit, hex: ReadHex, text: seq<Unit>)
    ensures Remaining(s, 0, false, term, hex, text) ==
            (if Scanned(s, term, hex).None? then -1 else Scanned(s, term, hex).value.0, text + Built(s, term, hex))
    ensures Scanned(s, term, hex).Some? ==> Built(s, term, hex) == Scanned(s, term, hex).value.1
  {
    assert s[0..] == s;
    if Scanned(s, term, hex).Some? {
      BuiltIsScanned(s, term, hex);
    }
  }

  /** A successful scan builds its text. */
  lemma {:induction false} BuiltIsScanned(s: seq<Unit>, term: Unit, hex: ReadHex)
    requires Scanned(s, term, hex).Some?
    ensures Built(s, term, hex) == Scanned(s, term, hex).value.1
    decreases |s|
  {
    if s[0] != term {
      if s[0] != BACKSLASH {
        BuiltIsScanned(s[1..], term, hex);
      } else if s[1] != LETTER_U {
        BuiltIsScanned(s[2..], term, hex);
      } else {
        BuiltIsScanned(s[6..], term, hex);
      }
    }
  }

  lemma ScanEnds(buffer: seq<Unit>, escape: bool, term: Unit, hex: ReadHex, text: seq<Unit>)
    requires escape ==> buffer != []
    ensures Remaining(buffer, |buffer|, escape, term, hex, text) == (-1, text)
  {
    assert text + [] == text;
    assert buffer[|buffer|..] == [];
    if escape {
      assert |buffer[|buffer| - 1..]| == 1;
    }
  }

  /** One round outside an escape. */
  lemma PlainStep(buffer: seq<Unit>, i: nat, term: Unit, hex: ReadHex, text: seq<Unit>)
    requires i < |buffer|
    ensures Remaining(buffer, i, false, term, hex, text) ==
            if buffer[i] == term then (i, text)
            else if buffer[i] == BACKSLASH then Remaining(buffer, i + 1, true, term, hex, text)
            else Remaining(buffer, i + 1, false, term, hex, text + [buffer[i]])
  {
    var s := buffer[i..];
    assert s[0] == buffer[i] && s[1..] == buffer[i + 1..];
    assert text + [] == text;
    assert text + ([buffer[i]] + Built(s[1..], term, hex)) == text + [buffer[i]] + Built(s[1..], term, hex);
  }

  /** One round within an escape. */
  lemma EscapeStep(buffer: seq<Unit>, i: nat, term: Unit, hex: ReadHex, text: seq<Unit>)
    requires 1 <= i < |buffer|
    ensures Remaining(buffer, i, true, term, hex, text) ==
            if buffer[i] != LETTER_U then Remaining(buffer, i + 1, false, term, hex, text + [ShortEscape(buffer[i])])
            else if i + 5 > |buffer| || hex(buffer[i + 1..i + 5]).None? then (-1, text)
            else Remaining(buffer, i + 5, false, term, hex, text + [hex(buffer[i + 1..i + 5]).value % 0x10000])
  {
    hide Remaining, ShortEscape;
    if buffer[i] == LETTER_U {
      HexStep(buffer, i, term, hex, text);
    } else {
      ShortStep(buffer, i, term, hex, text);
    }
  }

  lemma ShortStep(buffer: seq<Unit>, i: nat, term: Unit, hex: ReadHex, text: seq<Unit>)
    requires 1 <= i < |buffer| && buffer[i] != LETTER_U
    ensures Remaining(buffer, i, true, term, hex, text) ==
            Remaining(buffer, i + 1, false, term, hex, text + [ShortEscape(buffer[i])])
  {
    hide Outcome, OutcomeOfEscape, ShortEscape;
    var s := buffer[i - 1..];
    assert s[1] == buffer[i] && s[2..] == buffer[i + 1..];
    ShortOutcome(s, term, hex, i - 1, text);
  }

  lemma ShortOutcome(s: seq<Unit>, term: Unit, hex: ReadHex, from: int, text: seq<Unit>)
    requires |s| >= 2 && s[1] != LETTER_U
    ensures OutcomeOfEscape(s, term, hex, from, text) == Outcome(s[2..], term, hex, from + 2, text + [ShortEscape(s[1])])
  {
    hide Scanned, Built, ShortEscape;
    var rest := Built(s[2..], term, hex);
    assert text + ([ShortEscape(s[1])] + rest) == text + [ShortEscape(s[1])] + rest;
  }

  lemma HexStep(buffer: seq<Unit>, i: nat, term: Unit, hex: ReadHex, text: seq<Unit>)
    requires 1 <= i < |buffer| && buffer[i] == LETTER_U
    ensures Remaining(buffer, i, true, term, hex, text) ==
            if i + 5 > |buffer| || hex(buffer[i + 1..i + 5]).None? then (-1, text)
            else Remaining(buffer, i + 5, false, term, hex, text + [hex(buffer[i + 1..i + 5]).value % 0x10000])
  {
    hide Outcome, OutcomeOfEscape;
    var s := buffer[i - 1..];
    assert s[1] == buffer[i];
    HexOutcome(s, term, hex, i - 1, text);
    if i + 5 <= |buffer| {
      assert s[2..6] == buffer[i + 1..i + 5] && s[6..] == buffer[i + 5..];
    }
  }

  lemma HexOutcome(s: seq<Unit>, term: Unit, hex: ReadHex, from: int, text: seq<Unit>)
    requires |s| >= 2 && s[1] == LETTER_U
    ensures OutcomeOfEscape(s, term, hex, from, text) ==
            if |s| < 6 || hex(s[2..6]).None? then (-1, text)
            else Outcome(s[6..], term, hex, from + 6, text + [hex(s[2..6]).value % 0x10000])
  {
    hide Scanned, Built;
    assert text + [] == text;
    if |s| >= 6 && hex(s[2..6]).Some? {
      var u, rest := hex(s[2..6]).value % 0x10000, Built(s[6..], term, hex);
      assert text + ([u] + rest) == text + [u] + rest;
    }
  }

  // ----- What the scanner accepts -----

  /** Escaped text followed by the terminator scans to that terminator, whatever comes after it. */
  lemma {:induction false} ScannedOfRendered(ps: seq<Piece>, term: Unit, rest: seq<Unit>, hex: ReadHex)
    requires ValidPieces(ps, term, hex)
    ensures Scanned(Render(ps) + [term] + rest, term, hex) == Some((|Render(ps)|, UnitsOf(ps, hex)))
  {
    if ps == [] {
      TerminatorFirst(term, rest, hex);
    } else {
      hide *;
      FirstAndRest(ps, term, hex);
      var tail := Render(ps[1..]) + [term] + rest;
      ScannedOfRendered(ps[1..], term, rest, hex);
      Regroup(RenderPiece(ps[0]), Render(ps[1..]), [term], rest);
      ScannedOfPiece(ps[0], tail, term, hex);
      LaterIs(|Render(ps[1..])|, UnitsOf(ps[1..], hex), |RenderPiece(ps[0])|, UnitOf(ps[0], hex));
    }
  }

  lemma FirstAndRest(ps: seq<Piece>, term: Unit, hex: ReadHex)
    requires ps != []
    ensures Render(ps) == RenderPiece(ps[0]) + Render(ps[1..])
    ensures UnitsOf(ps, hex) == [UnitOf(ps[0], hex)] + UnitsOf(ps[1..], hex)
    ensures ValidPieces(ps, term, hex) ==> ValidPiece(ps[0], term, hex) && ValidPieces(ps[1..], term, hex)
  {
  }

  lemma LaterIs(i: nat, units: seq<Unit>, width: nat, u: Unit)
    ensures Later(Some((i, units)), width, u) == Some((width + i, [u] + units))
  {
  }

  lemma TerminatorFirst(term: Unit, rest: seq<Unit>, hex: ReadHex)
    ensures [] + [term] + rest == [term] + rest
    ensures Scanned([term] + rest, term, hex) == Some((0, []))
  {
  }

  lemma ScannedOfPiece(p: Piece, tail: seq<Unit>, term: Unit, hex: ReadHex)
    requires ValidPiece(p, term, hex)
    ensures Scanned(RenderPiece(p) + tail, term, hex) ==
            Later(Scanned(tail, term, hex), |RenderPiece(p)|, UnitOf(p, hex))
  {
    var s := RenderPiece(p) + tail;
    match p {
      case Plain(c) =>
        assert s[1..] == tail;
      case Short(c) =>
        assert s[1] == c && s[2..] == tail;
      case Hex(digits) =>
        assert s[1] == LETTER_U && s[2..6] == digits && s[6..] == tail;
    }
  }

  /** The piece at the front of a text that scans successfully. */
  function FirstPiece(s: seq<Unit>): Piece
    requires |s| >= 1 && (s[0] == BACKSLASH ==> |s| >= 2 && (s[1] == LETTER_U ==> |s| >= 6))
  {
    if s[0] != BACKSLASH then Plain(s[0])
    else if s[1] != LETTER_U then Short(s[1])
    else Hex(s[2..6])
  }

  lemma ScannedByPiece(s: seq<Unit>, term: Unit, hex: ReadHex)
    requires Scanned(s, term, hex).Some? && s[0] != term
    ensures s[0] == BACKSLASH ==> |s| >= 2 && (s[1] == LETTER_U ==> |s| >= 6)
    ensures var p := FirstPiece(s);
            var width := |RenderPiece(p)|;
            ValidPiece(p, term, hex) && RenderPiece(p) <= s &&
            Scanned(s[width..], term, hex).Some? &&
            Scanned(s, term, hex) == Later(Scanned(s[width..], term, hex), width, UnitOf(p, hex))
  {
    if s[0] == BACKSLASH && s[1] == LETTER_U {
      assert s[..6] == [BACKSLASH, LETTER_U] + s[2..6];
    }
  }

  /** What scans successfully is escaped text up to the terminator. */
  lemma {:induction false} PiecesOfScanned(s: seq<Unit>, term: Unit, hex: ReadHex) returns (ps: seq<Piece>)
    requires Scanned(s, term, hex).Some?
    ensures ValidPieces(ps, term, hex)
    ensures var (i, units) := Scanned(s, term, hex).value;
            Render(ps) == s[..i] && UnitsOf(ps, hex) == units
    decreases |s|
  {
    if s[0] == term {
      ps := [];
    } else {
      ScannedByPiece(s, term, hex);
      hide Scanned, RenderPiece, Render, UnitsOf, UnitOf, ValidPiece, ValidPieces, FirstPiece;
      var p := FirstPiece(s);
      var front := RenderPiece(p);
      PieceIsNotEmpty(p);
      var rest := PiecesOfScanned(s[|front|..], term, hex);
      ps := [p] + rest;
      Prepend(p, rest, term, hex);
      FrontAndRest(s, front, Scanned(s[|front|..], term, hex).value.0);
    }
  }

  lemma FrontAndRest(s: seq<Unit>, front: seq<Unit>, i: nat)
    requires front <= s && |front| + i <= |s|
    ensures s[..|front| + i] == front + s[|front|..][..i]
  {
  }

  lemma Prepend(p: Piece, rest: seq<Piece>, term: Unit, hex: ReadHex)
    ensures Render([p] + rest) == RenderPiece(p) + Render(rest)
    ensures UnitsOf([p] + rest, hex) == [UnitOf(p, hex)] + UnitsOf(rest, hex)
    ensures ValidPiece(p, term, hex) && ValidPieces(rest, term, hex) ==> ValidPieces([p] + rest, term, hex)
  {
    var ps := [p] + rest;
    assert ps[0] == p && ps[1..] == rest;
    assert forall i :: 0 < i < |ps| ==> ps[i] == rest[i - 1];
  }

  lemma PieceIsNotEmpty(p: Piece)
    ensures |RenderPiece(p)| >= 1
  {
  }

  ghost predicate Escapes(ps: seq<Piece>, s: seq<Unit>, units: seq<Unit>, term: Unit, hex: ReadHex) {
    ValidPieces(ps, term, hex) && Render(ps) == s && UnitsOf(ps, hex) == units
  }

  /** The scan succeeds exactly on escaped text followed by the terminator, and then gives the text. */
  lemma ScannedIffEscaped(s: seq<Unit>, term: Unit, hex: ReadHex, i: nat, units: seq<Unit>)
    ensures Scanned(s, term, hex) == Some((i, units)) <==>
            i < |s| && s[i] == term && exists ps :: Escapes(ps, s[..i], units, term, hex)
  {
    hide Scanned, ValidPieces, Render, UnitsOf;
    if Scanned(s, term, hex) == Some((i, units)) {
      var ps := PiecesOfScanned(s, term, hex);
      assert Escapes(ps, s[..i], units, term, hex);
    }
    if i < |s| && s[i] == term {
      forall ps | Escapes(ps, s[..i], units, term, hex) ensures Scanned(s, term, hex) == Some((i, units)) {
        ScannedOfRendered(ps, term, s[i + 1..], hex);
        assert s == Render(ps) + [term] + s[i + 1..];
      }
    }
  }

  // ----- Which texts can be escaped -----

  function Digit(n: nat): Unit
    requires n < 16
  {
    if n < 10 then 0x30 + n else 0x57 + n
  }

  function Digits(u: Unit): (d: seq<Unit>)
    ensures |d| == 4
  {
    [Digit(u / 0x1000), Digit(u / 0x100 % 16), Digit(u / 0x10 % 16), Digit(u % 16)]
  }

  /** The reader understands four lower-case hexadecimal digits. */
  ghost predicate ReadsDigits(hex: ReadHex) {
    forall u: Unit :: hex(Digits(u)) == Some(u)
  }

  predicate Ascii(s: seq<Unit>) {
    forall i :: 0 <= i < |s| ==> s[i] < 0x80
  }

  /** ASCII units other than the terminator and the backslash stand for themselves; the rest is written in hexadecimal. */
  function Escape(units: seq<Unit>, term: Unit): seq<Piece> {
    if units == [] then []
    else
      [EscapeUnit(units[0], term)] + Escape(units[1..], term)
  }

  /** Every text can be escaped in ASCII for any terminator but the backslash, and scanning gives it back. */
  lemma {:induction false} EscapeRoundTrip(units: seq<Unit>, term: Unit, hex: ReadHex)
    requires ReadsDigits(hex) && term != BACKSLASH
    ensures var s := Render(Escape(units, term));
            Ascii(s) && ValidPieces(Escape(units, term), term, hex) &&
            forall rest :: Scanned(s + [term] + rest, term, hex) == Some((|s|, units))
  {
    EscapeIsValid(units, term, hex);
    forall rest ensures Scanned(Render(Escape(units, term)) + [term] + rest, term, hex) ==
                        Some((|Render(Escape(units, term))|, units)) {
      ScannedOfRendered(Escape(units, term), term, rest, hex);
    }
  }

  function EscapeUnit(u: Unit, term: Unit): Piece {
    if u < 0x80 && u != term && u != BACKSLASH then Plain(u) else Hex(Digits(u))
  }

  lemma EscapeUnitIsValid(u: Unit, term: Unit, hex: ReadHex)
    requires ReadsDigits(hex) && term != BACKSLASH
    ensures var p := EscapeUnit(u, term);
            ValidPiece(p, term, hex) && UnitOf(p, hex) == u && Ascii(RenderPiece(p))
  {
    hide Digits;
    assert hex(Digits(u)) == Some(u);
    DigitsAreAscii(u);
  }

  lemma DigitsAreAscii(u: Unit)
    ensures Ascii(Digits(u))
  {
  }

  lemma {:induction false} EscapeIsValid(units: seq<Unit>, term: Unit, hex: ReadHex)
    requires ReadsDigits(hex) && term != BACKSLASH
    ensures ValidPieces(Escape(units, term), term, hex)
    ensures UnitsOf(Escape(units, term), hex) == units
    ensures Ascii(Render(Escape(units, term)))
  {
    if units == [] {
      assert Escape(units, term) == [];
    } else {
      hide *;
      EscapeFirst(units, term);
      var p, rest := EscapeUnit(units[0], term), Escape(units[1..], term);
      EscapeUnitIsValid(units[0], term, hex);
      EscapeIsValid(units[1..], term, hex);
      Prepend(p, rest, term, hex);
      AsciiConcat(RenderPiece(p), Render(rest));
      assert units == [units[0]] + units[1..];
    }
  }

  lemma EscapeFirst(units: seq<Unit>, term: Unit)
    requires units != []
    ensures Escape(units, term) == [EscapeUnit(units[0], term)] + Escape(units[1..], term)
  {
  }

  lemma AsciiConcat(a: seq<Unit>, b: seq<Unit>)
    requires Ascii(a) && Ascii(b)
    ensures Ascii(a + b)
  {
  }

  // ----- Escapes that a person would write -----

  /** The units that have a letter, and their letters. */
  const LETTERS: map<Unit, Unit> :=
    map[0 := 0x30, 7 := 0x61, 8 := 0x62, 9 := 0x74, 10 := 0x6e, 11 := 0x76, 12 := 0x66, 13 := 0x72]

  /** No backslash and letter stand for such a unit. */
  predicate HasMeaning(u: Unit) {
    u in {0x30, 0x61, 0x62, 0x66, 0x6e, 0x72, 0x74, 0x75, 0x76}
  }

  /**
   * Letters where there are any, a backslash before other ASCII units where it is needed or `cautious` asks for it,
   * and hexadecimal for the rest.
   */
  function Write(u: Unit, term: Unit, cautious: Unit -> bool): seq<Unit> {
    if u in LETTERS then [0x5c, LETTERS[u]]
    else if u < 0x80 && u != term && u != 0x5c && !cautious(u) then [u]
    else if u < 0x80 && !HasMeaning(u) then [0x5c, u]
    else [0x5c, 0x75] + Digits(u)
  }

  function WriteAll(units: seq<Unit>, term: Unit, cautious: Unit -> bool): seq<Unit> {
    if units == [] then [] else Write(units[0], term, cautious) + WriteAll(units[1..], term, cautious)
  }

  /** What was written so, in whatever style, scans back to the same units, for every terminator but the backslash. */
  lemma {:induction false} WrittenReadsBack(
      units: seq<Unit>, term: Unit, cautious: Unit -> bool, rest: seq<Unit>, hex: ReadHex)
    requires ReadsDigits(hex) && term != 0x5c
    ensures var s := WriteAll(units, term, cautious);
            Scanned(s + [term] + rest, term, hex) == Some((|s|, units))
    decreases |units|
  {
    if units == [] {
      TerminatorFirst(term, rest, hex);
    } else {
      hide *;
      var front, tail := Write(units[0], term, cautious), WriteAll(units[1..], term, cautious);
      WriteFirst(units, term, cautious);
      WrittenReadsBack(units[1..], term, cautious, rest, hex);
      OneReadsBack(units[0], term, cautious, tail + [term] + rest, hex);
      LaterIs(|tail|, units[1..], |front|, units[0]);
      Regroup(front, tail, [term], rest);
      HeadAndTail(units);
    }
  }

  lemma HeadAndTail(s: seq<Unit>)
    requires s != []
    ensures [s[0]] + s[1..] == s
  {
  }

  lemma Regroup(a: seq<Unit>, b: seq<Unit>, c: seq<Unit>, d: seq<Unit>)
    ensures (a + b) + c + d == a + (b + c + d)
  {
  }

  lemma WriteFirst(units: seq<Unit>, term: Unit, cautious: Unit -> bool)
    requires units != []
    ensures WriteAll(units, term, cautious) == Write(units[0], term, cautious) + WriteAll(units[1..], term, cautious)
  {
  }

  lemma OneReadsBack(u: Unit, term: Unit, cautious: Unit -> bool, tail: seq<Unit>, hex: ReadHex)
    requires ReadsDigits(hex) && term != 0x5c
    ensures var front := Write(u, term, cautious);
            Scanned(front + tail, term, hex) == Later(Scanned(tail, term, hex), |front|, u)
  {
    if u in LETTERS {
      ShortIsRead(LETTERS[u], term, tail, hex);
      LettersAreEscapes(u);
    } else if u < 0x80 && u != term && u != 0x5c && !cautious(u) {
      assert ([u] + tail)[1..] == tail;
    } else if u < 0x80 && !HasMeaning(u) {
      ShortIsRead(u, term, tail, hex);
      OthersAreThemselves(u);
    } else {
      HexIsRead(u, term, tail, hex);
    }
  }

  lemma ShortIsRead(c: Unit, term: Unit, tail: seq<Unit>, hex: ReadHex)
    requires term != 0x5c && c != 0x75
    ensures Scanned([0x5c, c] + tail, term, hex) == Later(Scanned(tail, term, hex), 2, ShortEscape(c))
  {
    ScannedOfPiece(Short(c), tail, term, hex);
  }

  lemma HexIsRead(u: Unit, term: Unit, tail: seq<Unit>, hex: ReadHex)
    requires ReadsDigits(hex) && term != 0x5c
    ensures Scanned([0x5c, 0x75] + Digits(u) + tail, term, hex) == Later(Scanned(tail, term, hex), 6, u)
  {
    hide Digits;
    assert hex(Digits(u)) == Some(u);
    ScannedOfPiece(Hex(Digits(u)), tail, term, hex);
  }

  lemma LettersAreEscapes(u: Unit)
    requires u in LETTERS
    ensures ShortEscape(LETTERS[u]) == u && LETTERS[u] != 0x75
  {
  }

  lemma OthersAreThemselves(u: Unit)
    requires !HasMeaning(u)
    ensures ShortEscape(u) == u && u != 0x75
  {
  }

  lemma {:induction false} PlainPieces(ps: seq<Piece>, hex: ReadHex)
    requires ValidPieces(ps, BACKSLASH, hex)
    ensures UnitsOf(ps, hex) == Render(ps) && BACKSLASH !in Render(ps)
  {
    if ps != [] {
      assert ValidPiece(ps[0], BACKSLASH, hex);
      PlainPieces(ps[1..], hex);
    }
  }

  lemma {:induction false} PlainText(s: seq<Unit>, hex: ReadHex) returns (ps: seq<Piece>)
    requires BACKSLASH !in s
    ensures Escapes(ps, s, s, BACKSLASH, hex)
  {
    ps := [];
    if s != [] {
      var rest := PlainText(s[1..], hex);
      hide *;
      PlainFirst(s[0], hex);
      Prepend(Plain(s[0]), rest, BACKSLASH, hex);
      ps := [Plain(s[0])] + rest;
      assert s == [s[0]] + s[1..];
      EscapesMeans(rest, s[1..], s[1..], BACKSLASH, hex);
      EscapesMeans(ps, s, s, BACKSLASH, hex);
    }
  }

  lemma PlainFirst(c: Unit, hex: ReadHex)
    ensures RenderPiece(Plain(c)) == [c] && UnitOf(Plain(c), hex) == c
    ensures c != BACKSLASH ==> ValidPiece(Plain(c), BACKSLASH, hex)
  {
  }

  lemma EscapesMeans(ps: seq<Piece>, s: seq<Unit>, units: seq<Unit>, term: Unit, hex: ReadHex)
    ensures Escapes(ps, s, units, term, hex) <==> ValidPieces(ps, term, hex) && Render(ps) == s && UnitsOf(ps, hex) == units
  {
  }

  /** A backslash as terminator leaves no room for escapes: then only plain units can be scanned. */
  lemma BackslashTerminatorIsPlain(s: seq<Unit>, hex: ReadHex, i: nat, units: seq<Unit>)
    ensures Scanned(s, BACKSLASH, hex) == Some((i, units)) <==>
            i < |s| && s[i] == BACKSLASH && units == s[..i] && BACKSLASH !in s[..i]
  {
    hide Scanned;
    ScannedIffEscaped(s, BACKSLASH, hex, i, units);
    if i < |s| {
      forall ps | Escapes(ps, s[..i], units, BACKSLASH, hex) ensures units == s[..i] && BACKSLASH !in s[..i] {
        PlainPieces(ps, hex);
      }
      if BACKSLASH !in s[..i] {
        var ps := PlainText(s[..i], hex);
      }
    }
  }

  /** Exactly when a text can be escaped in ASCII: always, unless the terminator is the backslash and the text needs escapes. */
  lemma EscapableIff(units: seq<Unit>, term: Unit, hex: ReadHex)
    requires ReadsDigits(hex)
    ensures (exists s :: Ascii(s) && Scanned(s + [term], term, hex) == Some((|s|, units))) <==>
            term != BACKSLASH || (Ascii(units) && BACKSLASH !in units)
  {
    if term != BACKSLASH {
      EscapeRoundTrip(units, term, hex);
      var s := Render(Escape(units, term));
      assert s + [term] + [] == s + [term];
      assert Ascii(s) && Scanned(s + [term], term, hex) == Some((|s|, units));
    } else {
      forall s | Ascii(s) && Scanned(s + [term], term, hex) == Some((|s|, units))
        ensures Ascii(units) && BACKSLASH !in units
      {
        BackslashTerminatorIsPlain(s + [term], hex, |s|, units);
        assert (s + [term])[|s|] == term;
        assert units == (s + [term])[..|s|] == s;
      }
      if Ascii(units) && BACKSLASH !in units {
        BackslashTerminatorIsPlain(units + [term], hex, |units|, units);
        assert (units + [term])[..|units|] == units;
      }
    }
  }
}
