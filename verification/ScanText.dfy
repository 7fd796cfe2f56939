/** The text of scan results: one line per access point, `%02X` six times, `, %d, %d`; and a reader for it. */
module ScanText {
  import Arith

  datatype Option<T> = None | Some(value: T)

  type Bssid = seq<nat>

  predicate ValidBssid(bssid: Bssid) {
    |bssid| == 6 && forall i :: 0 <= i < 6 ==> bssid[i] < 256
  }

  /** A line's contents: address, (average) signal strength, number of sightings. */
  datatype Line = Line(bssid: Bssid, rssi: int, nOcc: nat)

  // --- printf --------------------------------------------------------------------------------------------------

  /** A digit of `%02X` or `%d`. */
  function Digit(n: nat): (c: char)
    requires n < 16
  {
    "0123456789ABCDEF"[n]
  }

  function Hex(bssid: Bssid): (s: string)
    requires forall i :: 0 <= i < |bssid| ==> bssid[i] < 256
    ensures |s| == 2 * |bssid|
  {
    if bssid == [] then "" else [Digit(bssid[0] / 16), Digit(bssid[0] % 16)] + Hex(bssid[1..])
  }

  function Decimal(n: nat): (s: string)
    ensures |s| > 0
  {
    if n < 10 then [Digit(n)] else Decimal(n / 10) + [Digit(n % 10)]
  }

  /** `%d`. */
  function Int(n: int): (s: string)
    ensures |s| > 0
  {
    if n < 0 then "-" + Decimal(-n) else Decimal(n)
  }

  function LineText(line: Line): string
    requires ValidBssid(line.bssid)
  {
    Hex(line.bssid) + ", " + Int(line.rssi) + ", " + Int(line.nOcc)
  }

  ghost predicate ValidLines(lines: seq<Line>) {
    forall i :: 0 <= i < |lines| ==> ValidBssid(lines[i].bssid)
  }

  /** The lines with a newline between each two. */
  ghost function Joined(lines: seq<Line>): string
    requires ValidLines(lines)
  {
    if lines == [] then ""
    else if |lines| == 1 then LineText(lines[0])
    else LineText(lines[0]) + "\n" + Joined(lines[1..])
  }

  // --- The reader ------------------------------------------------------------------------------------------------

  function DigitValue(c: char): Option<nat> {
    if '0' <= c <= '9' then Some((c - '0') as nat)
    else if 'A' <= c <= 'F' then Some(10 + (c - 'A') as nat)
    else None
  }

  function ParseHex(s: string): Option<Bssid> {
    if s == "" then Some([])
    else if |s| == 1 then None
    else
      match (DigitValue(s[0]), DigitValue(s[1]), ParseHex(s[2..]))
      case (Some(high), Some(low), Some(rest)) => Some([16 * high + low] + rest)
      case _ => None
  }

  function ParseDecimal(s: string): Option<nat>
    decreases |s|
  {
    if s == "" then None
    else
      match DigitValue(s[|s| - 1])
      case None => None
      case Some(d) =>
        if d > 9 then None
        else if |s| == 1 then Some(d)
        else
          match ParseDecimal(s[..|s| - 1])
          case None => None
          case Some(n) => Some(10 * n + d)
  }

  function ParseInt(s: string): Option<int> {
    if s != "" && s[0] == '-' then
      match ParseDecimal(s[1..])
      case None => None
      case Some(n) => var v: int := n; Some(-v)
    else
      match ParseDecimal(s)
      case None => None
      case Some(n) => Some(n)
  }

  /** The parts of a text between the occurrences of a separator. */
  function Split(s: string, separator: char): (parts: seq<string>)
    ensures |parts| > 0
  {
    if s == "" then [""]
    else
      var rest := Split(s[1..], separator);
      if s[0] == separator then [""] + rest else [[s[0]] + rest[0]] + rest[1..]
  }

  function AfterSpace(s: string): Option<string> {
    if s != "" && s[0] == ' ' then Some(s[1..]) else None
  }

  function ParseField(s: string): Option<int> {
    match AfterSpace(s)
    case None => None
    case Some(digits) => ParseInt(digits)
  }

  function ParseLine(s: string): Option<Line> {
    var fields := Split(s, ',');
    if |fields| != 3 then None
    else
      match (ParseHex(fields[0]), ParseField(fields[1]), ParseField(fields[2]))
      case (Some(bssid), Some(rssi), Some(nOcc)) => if nOcc < 0 then None else Some(Line(bssid, rssi, nOcc))
      case _ => None
  }

  function ParseLines(parts: seq<string>): Option<seq<Line>> {
    if parts == [] then Some([])
    else
      match (ParseLine(parts[0]), ParseLines(parts[1..]))
      case (Some(line), Some(rest)) => Some([line] + rest)
      case _ => None
  }

  function Parse(text: string): Option<seq<Line>> {
    ParseLines(Split(text, '\n'))
  }

  // --- Reading back what was printed ---------------------------------------------------------------------------------

  lemma DigitReads(n: nat)
    requires n < 16
    ensures DigitValue(Digit(n)) == Some(n)
    ensures Digit(n) != ',' && Digit(n) != '\n' && Digit(n) != '-' && Digit(n) != ' '
  {
  }

  lemma ParseHexStep(b: nat, s: string)
    requires b < 256 && ParseHex(s).Some?
    ensures ParseHex([Digit(b / 16), Digit(b % 16)] + s) == Some([b] + ParseHex(s).value)
  {
    DigitReads(b / 16);
    DigitReads(b % 16);
    hide Digit, DigitValue;
    assert ([Digit(b / 16), Digit(b % 16)] + s)[2..] == s;
  }

  lemma {:induction false} HexReads(bssid: Bssid)
    requires forall i :: 0 <= i < |bssid| ==> bssid[i] < 256
    ensures ParseHex(Hex(bssid)) == Some(bssid)
  {
    if bssid != [] {
      HexReads(bssid[1..]);
      ParseHexStep(bssid[0], Hex(bssid[1..]));
      hide ParseHex, Digit;
      assert [bssid[0]] + bssid[1..] == bssid;
    }
  }

  lemma ParseDecimalStep(s: string, d: nat)
    requires d < 10
    ensures s == "" ==> ParseDecimal(s + [Digit(d)]) == Some(d)
    ensures s != "" && ParseDecimal(s).Some? ==> ParseDecimal(s + [Digit(d)]) == Some(10 * ParseDecimal(s).value + d)
  {
    DigitReads(d);
    hide Digit, DigitValue;
    var longer := s + [Digit(d)];
    assert longer[|longer| - 1] == Digit(d) && longer[..|longer| - 1] == s;
  }

  lemma {:induction false} DecimalReads(n: nat)
    ensures ParseDecimal(Decimal(n)) == Some(n)
    decreases n
  {
    hide ParseDecimal, Digit;
    if n < 10 {
      ParseDecimalStep("", n);
      assert "" + [Digit(n)] == [Digit(n)];
    } else {
      DecimalReads(n / 10);
      ParseDecimalStep(Decimal(n / 10), n % 10);
    }
  }

  /** No character of a number separates anything. */
  predicate Plain(s: string) {
    forall i :: 0 <= i < |s| ==> s[i] != ',' && s[i] != '\n' && s[i] != ' '
  }

  lemma {:induction false} DecimalPlain(n: nat)
    ensures Plain(Decimal(n)) && Decimal(n)[0] != '-'
    decreases n
  {
    DigitReads(n % 10);
    hide Digit;
    if n >= 10 {
      DecimalPlain(n / 10);
    }
  }

  lemma {:induction false} HexPlain(bssid: Bssid)
    requires forall i :: 0 <= i < |bssid| ==> bssid[i] < 256
    ensures Plain(Hex(bssid))
  {
    if bssid != [] {
      DigitReads(bssid[0] / 16);
      DigitReads(bssid[0] % 16);
      hide Digit;
      HexPlain(bssid[1..]);
    }
  }

  lemma IntReads(n: int)
    ensures ParseInt(Int(n)) == Some(n) && Plain(Int(n))
  {
    var m: nat := if n < 0 then -n else n;
    DecimalReads(m);
    DecimalPlain(m);
    hide Decimal, ParseDecimal;
    assert n < 0 ==> Int(n)[1..] == Decimal(m);
  }

  /** A part without separators comes off as the first one. */
  lemma {:induction false} SplitFirst(a: string, separator: char, b: string)
    requires forall i :: 0 <= i < |a| ==> a[i] != separator
    ensures Split(a + [separator] + b, separator) == [a] + Split(b, separator)
    decreases |a|
  {
    var s := a + [separator] + b;
    if a == "" {
      assert s[1..] == b;
    } else {
      SplitFirst(a[1..], separator, b);
      assert s[1..] == a[1..] + [separator] + b;
      assert [a[0]] + a[1..] == a;
    }
  }

  lemma {:induction false} SplitWhole(a: string, separator: char)
    requires forall i :: 0 <= i < |a| ==> a[i] != separator
    ensures Split(a, separator) == [a]
    decreases |a|
  {
    if a != "" {
      SplitWhole(a[1..], separator);
      assert [a[0]] + a[1..] == a;
    }
  }

  lemma LineReads(line: Line)
    requires ValidBssid(line.bssid)
    ensures ParseLine(LineText(line)) == Some(line)
    ensures forall i :: 0 <= i < |LineText(line)| ==> LineText(line)[i] != '\n'
  {
    hide Hex, Int, ParseInt, ParseHex, Split;
    var hex, rssi, nOcc := Hex(line.bssid), Int(line.rssi), Int(line.nOcc);
    HexReads(line.bssid);
    HexPlain(line.bssid);
    IntReads(line.rssi);
    IntReads(line.nOcc);
    FieldsSplit(hex, rssi, nOcc);
    assert LineText(line) == hex + ", " + rssi + ", " + nOcc;
    assert (" " + rssi)[1..] == rssi && (" " + nOcc)[1..] == nOcc;
  }

  lemma FieldsSplit(hex: string, rssi: string, nOcc: string)
    requires Plain(hex) && Plain(rssi) && Plain(nOcc)
    ensures Split(hex + ", " + rssi + ", " + nOcc, ',') == [hex, " " + rssi, " " + nOcc]
  {
    hide Split;
    var second, third := " " + rssi, " " + nOcc;
    assert hex + ", " + rssi + ", " + nOcc == hex + [','] + (second + [','] + third);
    SplitFirst(hex, ',', second + [','] + third);
    SplitFirst(second, ',', third);
    SplitWhole(third, ',');
  }

  lemma ParseLinesStep(part: string, parts: seq<string>, line: Line, lines: seq<Line>)
    requires ParseLine(part) == Some(line) && ParseLines(parts) == Some(lines)
    ensures ParseLines([part] + parts) == Some([line] + lines)
  {
    hide ParseLine;
    assert ([part] + parts)[1..] == parts;
  }

  lemma JoinedReads(first: string, rest: string, line: Line, lines: seq<Line>)
    requires ParseLine(first) == Some(line) && Parse(rest) == Some(lines)
    requires forall i :: 0 <= i < |first| ==> first[i] != '\n'
    ensures Parse(first + ['\n'] + rest) == Some([line] + lines)
  {
    SplitFirst(first, '\n', rest);
    ParseLinesStep(first, Split(rest, '\n'), line, lines);
    hide ParseLine, ParseLines, Split;
  }

  lemma OneReads(first: string, line: Line)
    requires ParseLine(first) == Some(line)
    requires forall i :: 0 <= i < |first| ==> first[i] != '\n'
    ensures Parse(first) == Some([line])
  {
    SplitWhole(first, '\n');
    ParseLinesStep(first, [], line, []);
    hide ParseLine, Split;
    assert [first] + [] == [first] && [line] + [] == [line];
  }

  /** Main result: the reader recovers every line, in order, from the joined text of any non-empty list. */
  lemma {:induction false} TextReads(lines: seq<Line>)
    requires lines != [] && ValidLines(lines)
    ensures Parse(Joined(lines)) == Some(lines)
    decreases |lines|
  {
    hide LineText, ParseLine, ValidBssid, Parse;
    LineReads(lines[0]);
    if |lines| == 1 {
      OneReads(LineText(lines[0]), lines[0]);
      assert lines == [lines[0]];
    } else {
      TextReads(lines[1..]);
      JoinedReads(LineText(lines[0]), Joined(lines[1..]), lines[0], lines[1..]);
      assert [lines[0]] + lines[1..] == lines;
    }
  }

  // --- Lengths ---------------------------------------------------------------------------------------------

  function Pow10(n: nat): (r: nat)
    ensures r > 0
  {
    if n == 0 then 1 else 10 * Pow10(n - 1)
  }

  lemma {:induction false} DecimalLength(n: nat, digits: nat)
    requires digits > 0 && n < Pow10(digits)
    ensures |Decimal(n)| <= digits
    decreases digits
  {
    if n >= 10 {
      assert digits > 1;
      DecimalLength(n / 10, digits - 1);
    }
  }

  // --- What the characters are -------------------------------------------------------------------------------

  /** `s` is `n` in decimal digits, the first of them zero only if it is the only one. */
  predicate Spells(s: string, n: nat) {
    && s != "" && n < Pow10(|s|) && (|s| > 1 ==> s[0] != '0')
    && forall k :: 0 <= k < |s| ==> s[|s| - 1 - k] as int == '0' as int + n / Pow10(k) % 10
  }

  lemma Tenths(n: nat, k: nat)
    ensures n / Pow10(k + 1) == n / 10 / Pow10(k)
  {
    DivTwice(n, 10, Pow10(k));
  }

  lemma DivTwice(n: nat, a: nat, b: nat)
    requires a > 0 && b > 0
    ensures a * b > 0 && n / (a * b) == n / a / b
  {
    var q := n / a / b;
    assert n == n / a * a + n % a && n / a == q * b + n / a % b;
    var r := n / a % b * a + n % a;
    assert n == q * (a * b) + r by {
      assert (q * b + n / a % b) * a == q * (a * b) + n / a % b * a;
    }
    assert n / a % b + 1 <= b;
    assert (n / a % b + 1) * a <= b * a;
    Arith.DivUnique(n, a * b, q, r);
  }

  lemma DigitChar(n: nat)
    requires n < 10
    ensures Digit(n) as int == '0' as int + n
  {
  }

  /** The digit `k` places from the end, once one more has been appended. */
  lemma DigitMoves(front: string, n: nat, k: nat)
    requires n >= 10 && Spells(front, n / 10) && k <= |front|
    ensures var s := front + [Digit(n % 10)];
            s[|s| - 1 - k] as int == '0' as int + n / Pow10(k) % 10
  {
    hide Digit;
    var s := front + [Digit(n % 10)];
    if k == 0 {
      DigitChar(n % 10);
      assert Pow10(0) == 1;
    } else {
      Tenths(n, k - 1);
      hide Pow10;
      assert s[|s| - 1 - k] == front[|front| - 1 - (k - 1)];
    }
  }

  lemma SpellsMore(front: string, n: nat)
    requires n >= 10 && Spells(front, n / 10)
    ensures Spells(front + [Digit(n % 10)], n)
  {
    FrontNotZero(front, n / 10);
    var s := front + [Digit(n % 10)];
    assert n < Pow10(|s|) by {
      assert Pow10(|s|) == 10 * Pow10(|front|);
    }
    hide Digit, Pow10;
    forall k | 0 <= k < |s|
      ensures s[|s| - 1 - k] as int == '0' as int + n / Pow10(k) % 10
    {
      DigitMoves(front, n, k);
    }
  }

  lemma SpellsOne(n: nat)
    requires n < 10
    ensures Spells([Digit(n)], n)
  {
    DigitChar(n);
    hide Digit;
    assert Pow10(0) == 1 && Pow10(1) == 10;
  }

  /** A number is printed in decimal without leading zeros. */
  lemma {:induction false} DecimalSpells(n: nat)
    ensures Spells(Decimal(n), n)
    decreases n
  {
    hide Digit, Spells;
    if n < 10 {
      SpellsOne(n);
    } else {
      DecimalSpells(n / 10);
      SpellsMore(Decimal(n / 10), n);
    }
  }

  lemma FrontNotZero(s: string, n: nat)
    requires Spells(s, n) && n > 0
    ensures s[0] != '0'
  {
    if |s| == 1 {
      assert Pow10(1) == 10 && Pow10(0) == 1;
      assert s[|s| - 1 - 0] as int == '0' as int + n / Pow10(0) % 10;
    }
  }

  /** `s` is the byte as two upper-case hexadecimal digits. */
  predicate SpellsByte(s: string, b: nat) {
    && b < 256 && |s| == 2
    && s[0] == "0123456789ABCDEF"[b / 16] && s[1] == "0123456789ABCDEF"[b % 16]
  }

  lemma {:induction false} HexSpells(bssid: Bssid, i: nat)
    requires i < |bssid| && forall j :: 0 <= j < |bssid| ==> bssid[j] < 256
    ensures SpellsByte(Hex(bssid)[2 * i..2 * i + 2], bssid[i])
  {
    if i > 0 {
      HexSpells(bssid[1..], i - 1);
      assert Hex(bssid)[2 * i..2 * i + 2] == Hex(bssid[1..])[2 * (i - 1)..2 * (i - 1) + 2];
    }
  }

  /** The same with a minus sign before a negative number. */
  predicate SpellsInt(s: string, n: int) {
    if n < 0 then s != "" && s[0] == '-' && Spells(s[1..], -n) else Spells(s, n)
  }

  lemma IntSpells(n: int)
    ensures SpellsInt(Int(n), n)
  {
    DecimalSpells(if n < 0 then -n else n);
    hide Decimal, Spells;
    assert n < 0 ==> Int(n)[1..] == Decimal(-n);
  }

  lemma HexThen(hex: string, rssi: string, nOcc: string)
    ensures hex + ", " + rssi + ", " + nOcc == hex + (", " + rssi + ", " + nOcc)
  {
  }

  /** Main result: a line is twelve upper-case hexadecimal digits, the signal with a minus sign when negative, and the
      count, both without leading zeros, with a comma and a space before each. */
  lemma LineForm(line: Line) returns (rssi: string, nOcc: string)
    requires ValidBssid(line.bssid)
    ensures SpellsInt(rssi, line.rssi) && Spells(nOcc, line.nOcc)
    ensures |LineText(line)| >= 12
    ensures forall i :: 0 <= i < 6 ==> SpellsByte(LineText(line)[2 * i..2 * i + 2], line.bssid[i])
    ensures LineText(line)[12..] == ", " + rssi + ", " + nOcc
  {
    rssi, nOcc := Int(line.rssi), Int(line.nOcc);
    IntSpells(line.rssi);
    IntSpells(line.nOcc);
    hide SpellsByte, Spells, Hex, Int;
    HexThen(Hex(line.bssid), rssi, nOcc);
    BytesSpelled(line.bssid, ", " + rssi + ", " + nOcc);
  }

  lemma BytesSpelled(bssid: Bssid, tail: string)
    requires ValidBssid(bssid)
    ensures forall i :: 0 <= i < 6 ==> SpellsByte((Hex(bssid) + tail)[2 * i..2 * i + 2], bssid[i])
  {
    hide Hex, SpellsByte;
    forall i | 0 <= i < 6
      ensures SpellsByte((Hex(bssid) + tail)[2 * i..2 * i + 2], bssid[i])
    {
      HexSpells(bssid, i);
      assert (Hex(bssid) + tail)[2 * i..2 * i + 2] == Hex(bssid)[2 * i..2 * i + 2];
    }
  }

  /** Joined lines: each but the last is followed by one newline. */
  lemma {:induction false} JoinedForm(before: seq<Line>, line: Line)
    requires ValidLines(before) && ValidBssid(line.bssid)
    ensures Joined(before + [line]) == (if before == [] then "" else Joined(before) + "\n") + LineText(line)
    decreases |before|
  {
    hide LineText, ValidBssid;
    var all := before + [line];
    if before != [] {
      JoinedForm(before[1..], line);
      assert all[1..] == before[1..] + [line];
    }
  }

  /** A line for 16-bit and 8-bit counters has at most 25 characters, so snprintf never cuts it. */
  lemma LineLength(line: Line)
    requires ValidBssid(line.bssid) && -32768 <= line.rssi < 32768 && line.nOcc < 256
    ensures 0 < |LineText(line)| <= 25
  {
    assert Pow10(5) == 100000 && Pow10(3) == 1000;
    DecimalLength(if line.rssi < 0 then -line.rssi else line.rssi, 5);
    DecimalLength(line.nOcc, 3);
    hide Decimal, Hex, Pow10;
  }
}
