/** The contents of the semicolon-separated statistics table: a header line
    naming the five columns, then one line per component in ascending
    component order. Numbers are written the way an output stream writes a
    non-negative int: decimal digits without leading zeros. A parser for the
    rows is the inverse the formatting is checked against. */
module Statistics {

  datatype Option<T> = None | Some(value: T)

  /** The five values written for one component, in column order. */
  datatype StatRow = StatRow(core: nat, tail: nat, boundary: nat, bright: nat, dark: nat)

  const Separator: char := ';'

  const ColumnNames: seq<string> := ["corePixels", "tailPixels", "boundaryPixels", "brightComponents", "darkComponents"]

  predicate IsDigit(c: char) { '0' <= c <= '9' }

  /** A non-empty run of decimal digits. */
  predicate IsNumeral(s: string)
  {
    |s| >= 1 && forall i :: 0 <= i < |s| ==> IsDigit(s[i])
  }

  function DigitChar(d: nat): (c: char)
    requires d < 10
    ensures IsDigit(c)
  {
    ('0' as int + d) as char
  }

  function DigitValue(c: char): nat
    requires IsDigit(c)
  {
    c as int - '0' as int
  }

  /** Decimal representation of n. */
  function NatToString(n: nat): (s: string)
    ensures IsNumeral(s)
    ensures n > 0 ==> s[0] != '0'
    ensures |s| > 1 ==> s[0] != '0'
    ensures n == 0 ==> s == "0"
    decreases n
  {
    if n < 10 then [DigitChar(n)] else NatToString(n / 10) + [DigitChar(n % 10)]
  }

  /** Value of a string of decimal digits. */
  function ParseNat(s: string): nat
    requires forall i :: 0 <= i < |s| ==> IsDigit(s[i])
    decreases |s|
  {
    if s == [] then 0 else ParseNat(s[..|s| - 1]) * 10 + DigitValue(s[|s| - 1])
  }

  lemma {:induction false} ParseNatToString(n: nat)
    ensures ParseNat(NatToString(n)) == n
    decreases n
  {
    var s := NatToString(n);
    if n >= 10 {
      ParseNatToString(n / 10);
      assert s[..|s| - 1] == NatToString(n / 10);
    }
  }

  /** The fields joined with the separator between consecutive fields. */
  function Join(fields: seq<string>): string
    requires |fields| >= 1
    decreases |fields|
  {
    if |fields| == 1 then fields[0] else fields[0] + [Separator] + Join(fields[1..])
  }

  /** The string cut at every separator. */
  function Split(s: string): (fields: seq<string>)
    ensures |fields| >= 1
    decreases |s|
  {
    if s == [] then [""]
    else
      var rest := Split(s[1..]);
      if s[0] == Separator then [""] + rest else [[s[0]] + rest[0]] + rest[1..]
  }

  lemma {:induction false} SplitNoSeparator(a: string, b: string)
    requires Separator !in a
    ensures Split(a + b)[0] == a + Split(b)[0] && Split(a + b)[1..] == Split(b)[1..]
    decreases |a|
  {
    if a != [] {
      SplitNoSeparator(a[1..], b);
      assert (a + b)[1..] == a[1..] + b;
    } else {
      assert a + b == b;
    }
  }

  /** Splitting undoes joining when no field contains the separator. */
  lemma {:induction false} SplitJoin(fields: seq<string>)
    requires |fields| >= 1
    requires forall i :: 0 <= i < |fields| ==> Separator !in fields[i]
    ensures Split(Join(fields)) == fields
    decreases |fields|
  {
    if |fields| == 1 {
      SplitNoSeparator(fields[0], "");
      assert fields[0] + "" == fields[0];
    } else {
      var tail := Join(fields[1..]);
      var s := Join(fields);
      SplitJoin(fields[1..]);
      SplitNoSeparator(fields[0], [Separator] + tail);
      assert s == fields[0] + ([Separator] + tail);
      assert ([Separator] + tail)[1..] == tail;
      assert Split([Separator] + tail) == [""] + fields[1..];
      assert Split(s)[0] == fields[0];
      assert Split(s) == [Split(s)[0]] + Split(s)[1..];
    }
  }

  /** The header line, "corePixels;tailPixels;boundaryPixels;brightComponents;darkComponents". */
  function Header(): string
  {
    Join(ColumnNames)
  }

  /** Cutting the header line at the separators gives the five column names
      back, in column order. */
  lemma HeaderColumns()
    ensures Split(Header()) == ColumnNames
  {
    SplitJoin(ColumnNames);
  }

  /** The line written for one component. */
  function FormatRow(r: StatRow): string
  {
    Join([NatToString(r.core), NatToString(r.tail), NatToString(r.boundary), NatToString(r.bright), NatToString(r.dark)])
  }

  /** Reads a line back: exactly five numeral fields, in column order. */
  function ParseRow(s: string): Option<StatRow>
  {
    var f := Split(s);
    if |f| == 5 && forall i :: 0 <= i < 5 ==> IsNumeral(f[i]) then
      Some(StatRow(ParseNat(f[0]), ParseNat(f[1]), ParseNat(f[2]), ParseNat(f[3]), ParseNat(f[4])))
    else
      None
  }

  /** Every component line reads back as its five values in column order. */
  lemma ParseFormatRow(r: StatRow)
    ensures ParseRow(FormatRow(r)) == Some(r)
  {
    var fields := [NatToString(r.core), NatToString(r.tail), NatToString(r.boundary), NatToString(r.bright), NatToString(r.dark)];
    forall i | 0 <= i < |fields| ensures Separator !in fields[i] {
    }
    SplitJoin(fields);
    ParseNatToString(r.core);
    ParseNatToString(r.tail);
    ParseNatToString(r.boundary);
    ParseNatToString(r.bright);
    ParseNatToString(r.dark);
  }

  /** The lines of the statistics table for per-component vectors of equal
      length: the header, then line i + 1 for component i. */
  method StatLines(core: seq<nat>, tail: seq<nat>, boundary: seq<nat>, bright: seq<nat>, dark: seq<nat>)
    returns (lines: seq<string>)
    requires |tail| == |core| && |boundary| == |core| && |bright| == |core| && |dark| == |core|
    ensures |lines| == |core| + 1
    ensures lines[0] == Header()
    ensures forall i :: 0 <= i < |core| ==> ParseRow(lines[i + 1]) == Some(StatRow(core[i], tail[i], boundary[i], bright[i], dark[i]))
    ensures forall i :: 0 <= i < |core| ==> lines[i + 1] == FormatRow(StatRow(core[i], tail[i], boundary[i], bright[i], dark[i]))
  {
    lines := [Header()];
    for i := 0 to |core|
      invariant |lines| == i + 1
      invariant lines[0] == Header()
      invariant forall k :: 0 <= k < i ==> lines[k + 1] == FormatRow(StatRow(core[k], tail[k], boundary[k], bright[k], dark[k]))
    {
      lines := lines + [FormatRow(StatRow(core[i], tail[i], boundary[i], bright[i], dark[i]))];
    }
    forall i | 0 <= i < |core|
      ensures ParseRow(lines[i + 1]) == Some(StatRow(core[i], tail[i], boundary[i], bright[i], dark[i]))
    {
      ParseFormatRow(StatRow(core[i], tail[i], boundary[i], bright[i], dark[i]));
    }
  }
}
