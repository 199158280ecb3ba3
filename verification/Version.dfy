/** The tolerant version parser and comparator. */
module Version {
  import opened Text

  const MAX_INT := 0x7fff_ffff_ffff_ffff

  /** `strconv.Atoi` on a run of digits: out of range yields the largest int. */
  function Atoi(digits: string): (n: int)
  {
    if Value(digits) > MAX_INT then MAX_INT else Value(digits)
  }

  function Flush(out: seq<int>, cur: string): seq<int> {
    if cur == "" then out else out + [Atoi(cur)]
  }

  /** The numbers completed so far and the run of digits in progress. */
  function Scan(v: string): (seq<int>, string) {
    if v == "" then ([], "")
    else
      var (out, cur) := Scan(v[..|v| - 1]);
      var c := v[|v| - 1];
      if IsDigit(c) then (out, cur + [c]) else (Flush(out, cur), "")
  }

  function Numbers(v: string): seq<int> {
    Flush(Scan(v).0, Scan(v).1)
  }

  method VersionNumbers(v: string) returns (out: seq<int>)
    ensures out == Numbers(v)
  {
    out := [];
    var cur := "";
    for i := 0 to |v|
      invariant (out, cur) == Scan(v[..i])
    {
      assert v[..i + 1][..i] == v[..i];
      var r := v[i];
      if IsDigit(r) {
        cur := cur + [r];
      } else {
        if |cur| != 0 {
          out := out + [Atoi(cur)];
        }
        cur := "";
      }
    }
    assert v[..|v|] == v;
    if |cur| != 0 {
      out := out + [Atoi(cur)];
    }
  }

  // ---- the order ----

  /** A missing trailing component is zero. */
  function Part(a: seq<int>, i: nat): int {
    if i < |a| then a[i] else 0
  }

  predicate DiffersAt(a: seq<int>, b: seq<int>, i: nat) {
    Part(a, i) != Part(b, i) && forall j: nat | j < i :: Part(a, j) == Part(b, j)
  }

  /** At the first component where they differ, `a` is smaller. */
  ghost predicate Older(a: seq<int>, b: seq<int>) {
    exists i: nat :: DiffersAt(a, b, i) && Part(a, i) < Part(b, i)
  }

  /** The same up to trailing zeros. */
  ghost predicate Same(a: seq<int>, b: seq<int>) {
    forall i: nat :: Part(a, i) == Part(b, i)
  }

  ghost predicate VersionOlder(a: string, b: string) {
    Older(Numbers(a), Numbers(b))
  }

  method VersionLess(a: string, b: string) returns (less: bool)
    ensures less <==> VersionOlder(a, b)
  {
    var an := VersionNumbers(a);
    var bn := VersionNumbers(b);
    var i := 0;
    while i < |an| || i < |bn|
      invariant 0 <= i && (i <= |an| || i <= |bn|)
      invariant forall j: nat | j < i :: Part(an, j) == Part(bn, j)
      decreases |an| + |bn| - i
    {
      var av, bv := 0, 0;
      if i < |an| {
        av := an[i];
      }
      if i < |bn| {
        bv := bn[i];
      }
      if av != bv {
        assert DiffersAt(an, bn, i);
        return av < bv;
      }
      i := i + 1;
    }
    return false;
  }

  /** Two versions are the same or exactly one is older. */
  lemma Trichotomy(a: seq<int>, b: seq<int>)
    ensures Same(a, b) <==> !Older(a, b) && !Older(b, a)
    ensures !(Older(a, b) && Older(b, a))
  {
    if !Same(a, b) {
      var i: nat :| Part(a, i) != Part(b, i);
      var k := FirstDifference(a, b, i);
      assert DiffersAt(a, b, k) && DiffersAt(b, a, k);
    }
  }

  lemma FirstDifference(a: seq<int>, b: seq<int>, i: nat) returns (k: nat)
    requires Part(a, i) != Part(b, i)
    ensures DiffersAt(a, b, k)
  {
    k := 0;
    while Part(a, k) == Part(b, k)
      invariant k <= i && forall j: nat | j < k :: Part(a, j) == Part(b, j)
      decreases i - k
    {
      k := k + 1;
    }
  }

  lemma OlderTransitive(a: seq<int>, b: seq<int>, c: seq<int>)
    requires Older(a, b) && Older(b, c)
    ensures Older(a, c)
  {
    var i: nat :| DiffersAt(a, b, i) && Part(a, i) < Part(b, i);
    var j: nat :| DiffersAt(b, c, j) && Part(b, j) < Part(c, j);
    assert DiffersAt(a, c, if i < j then i else j);
  }

  lemma SameOlder(a: seq<int>, b: seq<int>, c: seq<int>)
    requires Same(a, b)
    ensures Older(a, c) <==> Older(b, c)
    ensures Older(c, a) <==> Older(c, b)
  {
    if i: nat :| DiffersAt(a, c, i) { assert DiffersAt(b, c, i) && DiffersAt(c, b, i) && DiffersAt(c, a, i); }
    if i: nat :| DiffersAt(b, c, i) { assert DiffersAt(a, c, i) && DiffersAt(c, b, i) && DiffersAt(c, a, i); }
    if i: nat :| DiffersAt(c, a, i) { assert DiffersAt(a, c, i); }
    if i: nat :| DiffersAt(c, b, i) { assert DiffersAt(b, c, i); }
  }

  /** Main: a strict weak order: irreflexive, transitive, and "neither is older" is an equivalence,
      namely equality up to trailing zero components. */
  lemma StrictWeakOrder(a: string, b: string, c: string)
    ensures !VersionOlder(a, a)
    ensures VersionOlder(a, b) && VersionOlder(b, c) ==> VersionOlder(a, c)
    ensures !VersionOlder(a, b) && !VersionOlder(b, a) <==> Same(Numbers(a), Numbers(b))
    ensures !VersionOlder(a, b) && !VersionOlder(b, c) ==> !VersionOlder(a, c)
  {
    var x, y, z := Numbers(a), Numbers(b), Numbers(c);
    Trichotomy(x, y);
    Trichotomy(y, z);
    Trichotomy(x, z);
    if Older(x, y) && Older(y, z) { OlderTransitive(x, y, z); }
    if !Older(x, y) && !Older(y, z) && Older(x, z) {
      if Same(x, y) {
        SameOlder(x, y, z);
      } else if Same(y, z) {
        SameOlder(y, z, x);
      } else {
        OlderTransitive(y, x, z);
      }
    }
  }

  // ---- the parser inverts printing ----

  predicate NoDigits(s: string) {
    forall c | c in s :: !IsDigit(c)
  }

  lemma {:induction false} SkipSeparator(v: string, sep: string)
    requires sep != "" && NoDigits(sep)
    ensures Scan(v + sep) == (Numbers(v), "")
  {
    var n := |sep| - 1;
    assert (v + sep)[..|v + sep| - 1] == v + sep[..n];
    if n > 0 {
      SkipSeparator(v, sep[..n]);
    } else {
      assert v + sep[..n] == v;
    }
  }

  lemma {:induction false} ReadDigits(v: string, digits: string)
    requires forall c | c in digits :: IsDigit(c)
    ensures Scan(v + digits) == (Scan(v).0, Scan(v).1 + digits)
  {
    if digits == "" {
      assert v + digits == v && Scan(v).1 + digits == Scan(v).1;
    } else {
      var n := |digits| - 1;
      assert (v + digits)[..|v + digits| - 1] == v + digits[..n];
      ReadDigits(v, digits[..n]);
      assert digits == digits[..n] + [digits[n]];
      assert Scan(v).1 + digits[..n] + [digits[n]] == Scan(v).1 + digits;
    }
  }

  function Dotted(nums: seq<nat>, sep: string): string {
    if nums == [] then "" else if |nums| == 1 then Decimal(nums[0])
    else Dotted(nums[..|nums| - 1], sep) + sep + Decimal(nums[|nums| - 1])
  }

  /** Numbers that do not fit a 64-bit int are read as the largest one. */
  function Capped(nums: seq<nat>): seq<int> {
    seq(|nums|, i requires 0 <= i < |nums| =>
      if nums[i] < 0x8000_0000_0000_0000 then nums[i] else 0x7fff_ffff_ffff_ffff)
  }

  lemma OneCapped(nums: seq<nat>)
    requires nums != []
    ensures Capped(nums) == Capped(nums[..|nums| - 1]) + [Atoi(Decimal(nums[|nums| - 1]))]
    ensures Decimal(nums[|nums| - 1]) != "" && forall c | c in Decimal(nums[|nums| - 1]) :: IsDigit(c)
  {
    hide Decimal;
    DecimalValue(nums[|nums| - 1]);
  }

  lemma AllInRange(nums: seq<nat>)
    requires forall n | n in nums :: n <= MAX_INT
    ensures Capped(nums) == nums
  {
    forall i | 0 <= i < |nums| ensures Capped(nums)[i] == nums[i] { assert nums[i] in nums; }
  }

  lemma OneNumber(v: string, digits: string)
    requires digits != "" && Scan(v).1 == "" && forall c | c in digits :: IsDigit(c)
    ensures Numbers(v + digits) == Scan(v).0 + [Atoi(digits)]
  {
    ReadDigits(v, digits);
    assert "" + digits == digits;
  }

  /** Main: the parser reads back what joins decimals with any separator that has no digit, up to the
      range of an int. */
  lemma {:induction false} NumbersOfDotted(nums: seq<nat>, sep: string)
    requires sep != "" && NoDigits(sep)
    ensures Numbers(Dotted(nums, sep)) == Capped(nums)
    ensures (forall n | n in nums :: n <= MAX_INT) ==> Numbers(Dotted(nums, sep)) == nums
  {
    if nums != [] {
      hide Decimal, Capped, Atoi, IsDigit, Scan, Numbers, NoDigits;
      var init, n := nums[..|nums| - 1], nums[|nums| - 1];
      OneCapped(nums);
      if init == [] {
        NothingScanned();
        OneNumber("", Decimal(n));
        assert "" + Decimal(n) == Decimal(n);
      } else {
        NumbersOfDotted(init, sep);
        SkipSeparator(Dotted(init, sep), sep);
        OneNumber(Dotted(init, sep) + sep, Decimal(n));
      }
    }
    if forall n | n in nums :: n <= MAX_INT { AllInRange(nums); }
  }

  lemma NothingScanned()
    ensures Scan("") == ([], "") && Capped([]) == []
  {
  }

  /** So "7.4" is older than "7.10" and the same as "7.4.0", for any such numbers. */
  lemma {:induction false} TrailingZeros(nums: seq<nat>, zeros: seq<nat>)
    requires forall z | z in zeros :: z == 0
    ensures Same(Numbers(Dotted(nums, ".")), Numbers(Dotted(nums + zeros, ".")))
  {
    NumbersOfDotted(nums, ".");
    NumbersOfDotted(nums + zeros, ".");
    forall i: nat ensures Part(Capped(nums), i) == Part(Capped(nums + zeros), i) {
      if |nums| <= i < |nums + zeros| { assert (nums + zeros)[i] in zeros; }
    }
  }

  // ---- dotted quads ----

  function Bytes(a: nat): seq<nat> {
    [a / 0x100_0000 % 256, a / 0x1_0000 % 256, a / 0x100 % 256, a % 256]
  }

  function Quad(a: nat): string {
    Dotted(Bytes(a), ".")
  }

  lemma LastOctet(hi: nat, lo: nat)
    requires lo < 256
    ensures (hi * 256 + lo) / 256 == hi && (hi * 256 + lo) % 256 == lo
  {
  }

  lemma BytesOf(a: nat, b: nat, c: nat, d: nat)
    requires a < 256 && b < 256 && c < 256 && d < 256
    ensures Bytes(((a * 256 + b) * 256 + c) * 256 + d) == [a, b, c, d]
  {
    var z := ((a * 256 + b) * 256 + c) * 256 + d;
    LastOctet((a * 256 + b) * 256 + c, d);
    LastOctet(a * 256 + b, c);
    LastOctet(a, b);
    assert z / 0x1_0000 == z / 256 / 256 && z / 0x100_0000 == z / 256 / 256 / 256;
  }

  lemma FourDotted(a: nat, b: nat, c: nat, d: nat)
    ensures Dotted([a, b, c, d], ".") == Decimal(a) + "." + Decimal(b) + "." + Decimal(c) + "." + Decimal(d)
  {
    hide Decimal;
    var all := [a, b, c, d];
    assert all[..3] == [a, b, c] && [a, b, c][..2] == [a, b] && [a, b][..1] == [a];
    assert Dotted([a], ".") == Decimal(a);
    assert Dotted([a, b], ".") == Decimal(a) + "." + Decimal(b);
    assert Dotted([a, b, c], ".") == Decimal(a) + "." + Decimal(b) + "." + Decimal(c);
  }

  /** Main: the four octets in decimal, the highest first. */
  lemma QuadText(a: nat, b: nat, c: nat, d: nat)
    requires a < 256 && b < 256 && c < 256 && d < 256
    ensures Quad(((a * 256 + b) * 256 + c) * 256 + d) ==
            Decimal(a) + "." + Decimal(b) + "." + Decimal(c) + "." + Decimal(d)
  {
    hide Decimal, Bytes, Dotted;
    BytesOf(a, b, c, d);
    FourDotted(a, b, c, d);
  }

  /** Addresses print distinctly. */
  lemma QuadInjective(a: nat, b: nat)
    requires a < 0x1_0000_0000 && b < 0x1_0000_0000 && Quad(a) == Quad(b)
    ensures a == b
  {
    NumbersOfDotted(Bytes(a), ".");
    NumbersOfDotted(Bytes(b), ".");
    assert Bytes(a) == Bytes(b);
    BytesDetermine(a);
    BytesDetermine(b);
  }

  lemma BytesDetermine(a: nat)
    requires a < 0x1_0000_0000
    ensures var d := Bytes(a); a == d[0] * 0x100_0000 + d[1] * 0x1_0000 + d[2] * 0x100 + d[3]
  {
    var x := a / 0x100;
    var y := x / 0x100;
    assert a / 0x1_0000 == y && a / 0x100_0000 == y / 0x100;
  }
}
