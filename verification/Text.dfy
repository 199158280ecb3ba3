/** Decimal text, as `%d` prints it, and the export ids built from it. */
module Text {

  function Digit(d: nat): char
    requires d < 10
  {
    '0' + d as char
  }

  function Decimal(n: nat): string {
    if n < 10 then [Digit(n)] else Decimal(n / 10) + [Digit(n % 10)]
  }

  predicate IsDigit(c: char) {
    '0' <= c <= '9'
  }

  /** The number a run of digits denotes. */
  function Value(s: string): int {
    if s == "" then 0 else 10 * Value(s[..|s| - 1]) + (s[|s| - 1] as int - '0' as int)
  }

  lemma {:induction false} DecimalValue(n: nat)
    ensures Value(Decimal(n)) == n
    ensures |Decimal(n)| > 0 && forall c | c in Decimal(n) :: IsDigit(c)
  {
    if n < 10 {
      assert Decimal(n)[..0] == "";
    } else {
      DecimalValue(n / 10);
      assert Decimal(n)[..|Decimal(n)| - 1] == Decimal(n / 10);
    }
  }

  lemma DecimalInjective(a: nat, b: nat)
    requires Decimal(a) == Decimal(b)
    ensures a == b
  {
    DecimalValue(a);
    DecimalValue(b);
  }

  function SegmentExportId(id: nat): string {
    "seg-" + Decimal(id)
  }

  function HostExportId(id: nat): string {
    "host-" + Decimal(id)
  }

  lemma SegmentExportIdInjective(a: nat, b: nat)
    requires SegmentExportId(a) == SegmentExportId(b)
    ensures a == b
  {
    assert SegmentExportId(a)[4..] == Decimal(a) && SegmentExportId(b)[4..] == Decimal(b);
    DecimalInjective(a, b);
  }

  lemma HostExportIdInjective(a: nat, b: nat)
    requires HostExportId(a) == HostExportId(b)
    ensures a == b
  {
    assert HostExportId(a)[5..] == Decimal(a) && HostExportId(b)[5..] == Decimal(b);
    DecimalInjective(a, b);
  }

  function Join(parts: seq<string>, sep: string): string {
    if parts == [] then "" else if |parts| == 1 then parts[0] else parts[0] + sep + Join(parts[1..], sep)
  }
}
