/**
  Setup codes and setup payloads (sections 4.2.1 and 4.4.2.1 of the HomeKit Accessory Protocol
  Specification R14): which codes are allowed, and the text an accessory shows or stores in its tag.
  The code divides by 36 without a division and picks characters without a branch.
*/
module SetupPayload {
  import opened Base
  import N = Numerals

  type u64 = n: int | 0 <= n < 0x1_0000_0000_0000_0000
  type u32 = n: int | 0 <= n < 0x1_0000_0000

  // ------------------------------------------------------------------ setup codes

  predicate IsDigit(c: char) {
    '0' <= c <= '9'
  }

  /** The form XXX-XX-XXX. */
  predicate IsFormatted(s: string) {
    |s| == 10 && forall i :: 0 <= i < 10 ==> if i == 3 || i == 6 then s[i] == '-' else IsDigit(s[i])
  }

  /** The position of digit `k` in a setup code. */
  function DigitIndex(k: nat): (i: nat)
    requires k < 8
  {
    if k < 3 then k else if k < 5 then k + 1 else k + 2
  }

  function CodeDigits(s: string): (ds: seq<nat>)
    requires IsFormatted(s)
    ensures |ds| == 8 && N.IsNumeral(10, ds)
    ensures forall k :: 0 <= k < 8 ==> ds[k] == s[DigitIndex(k)] as int - '0' as int
  {
    seq(8, k requires 0 <= k < 8 => s[DigitIndex(k)] as int - '0' as int)
  }

  /** Section 4.2.1.2: no single repeated digit, and neither 12345678 nor 87654321. */
  predicate IsTrivial(ds: seq<nat>)
    requires |ds| == 8
  {
    || (forall k :: 0 <= k < 8 ==> ds[k] == ds[0])
    || ds == [1, 2, 3, 4, 5, 6, 7, 8]
    || ds == [8, 7, 6, 5, 4, 3, 2, 1]
  }

  predicate IsValidCode(s: string) {
    IsFormatted(s) && !IsTrivial(CodeDigits(s))
  }

  /** The codes the specification excludes, written out. */
  const EXCLUDED: seq<string> :=
    ["000-00-000", "111-11-111", "222-22-222", "333-33-333", "444-44-444", "555-55-555", "666-66-666",
     "777-77-777", "888-88-888", "999-99-999", "123-45-678", "876-54-321"]

  /** A code in the right form with the given digits. */
  predicate Spells(s: string, ds: seq<nat>) {
    IsFormatted(s) && CodeDigits(s) == ds
  }

  lemma SpelledOnce(s: string, t: string)
    requires IsFormatted(s) && IsFormatted(t) && CodeDigits(s) == CodeDigits(t)
    ensures s == t
  {
    forall i | 0 <= i < 10
      ensures s[i] == t[i]
    {
      if i != 3 && i != 6 {
        assert DigitIndex(DigitsBefore(i)) == i;
        assert CodeDigits(s)[DigitsBefore(i)] == CodeDigits(t)[DigitsBefore(i)];
      }
    }
  }

  /** The same digit eight times. */
  function Repeated(d: nat): (s: string)
    requires d < 10
    ensures Spells(s, [d, d, d, d, d, d, d, d])
  {
    var c := ('0' as int + d) as char;
    [c, c, c, '-', c, c, '-', c, c, c]
  }

  lemma RepeatedExcluded(d: nat)
    requires d < 10
    ensures EXCLUDED[d] == Repeated(d)
  {
  }

  lemma RunsSpelled()
    ensures Spells("123-45-678", [1, 2, 3, 4, 5, 6, 7, 8]) && Spells("876-54-321", [8, 7, 6, 5, 4, 3, 2, 1])
  {
  }

  lemma ExcludedIsTrivial(s: string)
    requires IsFormatted(s) && s in EXCLUDED
    ensures IsTrivial(CodeDigits(s))
  {
    var d :| 0 <= d < 12 && EXCLUDED[d] == s;
    RunsSpelled();
    if d < 10 {
      RepeatedExcluded(d);
    }
  }

  /** A code in the right form is valid exactly if it is none of these twelve. */
  lemma ValidUnlessExcluded(s: string)
    requires IsFormatted(s)
    ensures IsValidCode(s) <==> s !in EXCLUDED
  {
    var ds := CodeDigits(s);
    RunsSpelled();
    if IsTrivial(ds) {
      if forall k :: 0 <= k < 8 ==> ds[k] == ds[0] {
        assert ds == [ds[0], ds[0], ds[0], ds[0], ds[0], ds[0], ds[0], ds[0]];
        SpelledOnce(s, Repeated(ds[0]));
        RepeatedExcluded(ds[0]);
      } else {
        SpelledOnce(s, if ds[0] == 1 then "123-45-678" else "876-54-321");
        assert EXCLUDED[10] == "123-45-678" && EXCLUDED[11] == "876-54-321";
      }
    }
    if s in EXCLUDED {
      ExcludedIsTrivial(s);
    }
  }

  /** How many of the first `n` digits stand to their predecessor in the given difference. */
  function Steps(ds: seq<nat>, n: nat, diff: int): (count: nat)
    requires n <= |ds|
    ensures count <= if n == 0 then 0 else n - 1
  {
    if n <= 1 then 0 else Steps(ds, n - 1, diff) + if ds[n - 1] == ds[n - 2] + diff then 1 else 0
  }

  lemma {:induction false} StepsAreFull(ds: seq<nat>, n: nat, diff: int)
    requires 1 <= n <= |ds|
    ensures Steps(ds, n, diff) == n - 1 <==> forall k :: 0 <= k < n ==> ds[k] == ds[0] + k * diff
  {
    if n > 1 {
      StepsAreFull(ds, n - 1, diff);
      assert (n - 1) * diff == (n - 2) * diff + diff;
    }
  }

  /** Digits seen before position `i` of a setup code. */
  function DigitsBefore(i: nat): (k: nat)
    requires i <= 10
    ensures k <= 8
  {
    if i <= 3 then i else if i <= 6 then i - 1 else i - 2
  }

  /** A run of eight digits with a fixed difference, written out. */
  lemma RunIs(ds: seq<nat>, diff: int, run: seq<nat>)
    requires |ds| == |run| == 8 && forall k :: 0 <= k < 8 ==> run[k] == run[0] + k * diff
    ensures ds == run <==> ds[0] == run[0] && Steps(ds, 8, diff) == 7
  {
    StepsAreFull(ds, 8, diff);
    if ds[0] == run[0] && Steps(ds, 8, diff) == 7 {
      assert forall k :: 0 <= k < 8 ==> ds[k] == run[k];
    }
  }

  lemma TrivialByCounting(ds: seq<nat>)
    requires |ds| == 8
    ensures IsTrivial(ds) <==> || Steps(ds, 8, 0) == 7
                               || (ds[0] == 1 && Steps(ds, 8, 1) == 7)
                               || (ds[0] == 8 && Steps(ds, 8, -1) == 7)
  {
    StepsAreFull(ds, 8, 0);
    RunIs(ds, 1, [1, 2, 3, 4, 5, 6, 7, 8]);
    RunIs(ds, -1, [8, 7, 6, 5, 4, 3, 2, 1]);
  }

  lemma {:induction false} StepsOfPrefix(ds: seq<nat>, d: nat, n: nat, diff: int)
    requires n <= |ds|
    ensures Steps(ds + [d], n, diff) == Steps(ds, n, diff)
  {
    if n > 1 {
      StepsOfPrefix(ds, d, n - 1, diff);
    }
  }

  lemma StepsGrow(ds: seq<nat>, d: nat, diff: int)
    ensures Steps(ds + [d], |ds| + 1, diff)
         == Steps(ds, |ds|, diff) + if ds != [] && d == ds[|ds| - 1] + diff then 1 else 0
  {
    StepsOfPrefix(ds, d, |ds|, diff);
  }

  /** The first `i` characters have the right form and carry the digits `ds`. */
  predicate Seen(s: string, i: nat, ds: seq<nat>)
    requires i <= |s| == 10
  {
    && |ds| == DigitsBefore(i) && N.IsNumeral(10, ds)
    && (forall j :: 0 <= j < i ==> if j == 3 || j == 6 then s[j] == '-' else IsDigit(s[j]))
    && (forall k :: 0 <= k < |ds| ==> ds[k] == s[DigitIndex(k)] as int - '0' as int)
  }

  lemma SeenDigit(s: string, i: nat, ds: seq<nat>)
    requires i < |s| == 10 && Seen(s, i, ds) && i != 3 && i != 6 && IsDigit(s[i])
    ensures Seen(s, i + 1, ds + [s[i] as int - '0' as int])
  {
  }

  /** The counters agree with the digits seen so far. */
  predicate Counted(ds: seq<nat>, previous: int, numEqual: nat, numAscending: nat, numDescending: nat) {
    && previous == (if ds == [] then 0 else ds[|ds| - 1] + '0' as int)
    && numEqual == Steps(ds, |ds|, 0) && numAscending == Steps(ds, |ds|, 1) && numDescending == Steps(ds, |ds|, -1)
  }

  /** One pass over the characters with three counters, compared only at the end. */
  method IsValidSetupCode(s: string) returns (r: bool)
    ensures r <==> IsValidCode(s)
  {
    if |s| != 10 {
      return false;
    }
    var numEqual, numAscending, numDescending := 0, 0, 0;
    var previous := 0;
    var i := 0;
    ghost var ds: seq<nat> := [];
    while i < 10
      invariant 0 <= i <= 10 && Seen(s, i, ds) && Counted(ds, previous, numEqual, numAscending, numDescending)
    {
      if i == 3 || i == 6 {
        if s[i] != '-' {
          return false;
        }
      } else {
        if s[i] < '0' || s[i] > '9' {
          return false;
        }
        SeenDigit(s, i, ds);
        ghost var d := s[i] as int - '0' as int;
        numEqual, numAscending, numDescending, previous :=
          Count(s[i], previous, numEqual, numAscending, numDescending, ds);
        ds := ds + [d];
      }
      i := i + 1;
    }
    assert ds == CodeDigits(s);
    TrivialByCounting(ds);
    return numEqual != 7 && (s[0] != '1' || numAscending != 7) && (s[0] != '8' || numDescending != 7);
  }

  method Count(character: char, previous: int, numEqual: nat, numAscending: nat, numDescending: nat, ghost ds: seq<nat>)
    returns (equal: nat, ascending: nat, descending: nat, current: int)
    requires IsDigit(character) && Counted(ds, previous, numEqual, numAscending, numDescending)
    ensures Counted(ds + [character as int - '0' as int], current, equal, ascending, descending)
  {
    current := character as int;
    equal := numEqual + if current == previous then 1 else 0;
    ascending := numAscending + if current == previous + 1 then 1 else 0;
    descending := numDescending + if current == previous - 1 then 1 else 0;
    StepsGrow(ds, current - '0' as int, 0);
    StepsGrow(ds, current - '0' as int, 1);
    StepsGrow(ds, current - '0' as int, -1);
  }

  // ------------------------------------------------------------------ division by 36

  function Quotient(x: nat): nat {
    var q0 := x - x / 8;
    var q1 := q0 + q0 / 64;
    var q2 := q1 + q1 / 4096;
    var q3 := q2 + q2 / 0x100_0000;
    var q4 := q3 + q3 / 0x1_0000_0000_0000;
    q4 / 32
  }

  /** The shifts and additions give the quotient or one less; nothing exceeds 64 bits. */
  lemma QuotientBounds(x: nat)
    requires x < 0x1_0000_0000_0000_0000
    ensures 0 <= x - 36 * Quotient(x) < 72
  {
    var q0 := x - x / 8;
    var q1 := q0 + q0 / 64;
    var q2 := q1 + q1 / 4096;
    var q3 := q2 + q2 / 0x100_0000;
    var q4 := q3 + q3 / 0x1_0000_0000_0000;
    assert 7 * x <= 8 * q0 <= 7 * x + 7;
    assert 65 * q0 - 63 <= 64 * q1 <= 65 * q0;
    assert 4097 * q1 - 4095 <= 4096 * q2 <= 4097 * q1;
    assert 0x100_0001 * q2 - 0xFF_FFFF <= 0x100_0000 * q3 <= 0x100_0001 * q2;
    assert 0x1_0000_0000_0001 * q3 - 0xFFFF_FFFF_FFFF <= 0x1_0000_0000_0000 * q4 <= 0x1_0000_0000_0001 * q3;
    assert 9 * q4 < 8 * (x + 1);
    assert 9 * q4 >= 8 * x - 46;
    assert q4 - 31 <= 32 * Quotient(x) <= q4;
  }

  /** Unsigned 32-bit arithmetic. */
  function Low32(n: int): u32 {
    n % 0x1_0000_0000
  }

  /** The truncated subtraction loses nothing when the true difference fits. */
  lemma TruncatedSubtraction(x: nat, q: nat)
    requires 0 <= x - 36 * q < 0x1_0000_0000
    ensures Low32(Low32(x) - Low32(Low32(q) * 36)) == x - 36 * q
  {
    var m := 0x1_0000_0000;
    var k := x / m - (q / m) * 36 - (Low32(q) * 36) / m;
    assert Low32(x) - Low32(Low32(q) * 36) == (x - 36 * q) - k * m;
    if k != 0 {
      ModShift(x - 36 * q, k);
    }
  }

  lemma ModShift(n: nat, k: int)
    requires n < 0x1_0000_0000
    ensures (n - k * 0x1_0000_0000) % 0x1_0000_0000 == n
  {
  }

  /** The shifts and additions; the types say that no intermediate value needs more than 64 bits. */
  method ApproximateQuotient(x: u64) returns (quotient: u64)
    ensures quotient == Quotient(x)
  {
    var q0: u64 := x - x / 8;
    assert 8 * q0 <= 7 * x + 7;
    var q1: u64 := q0 + q0 / 64;
    assert 64 * q1 <= 65 * q0;
    var q2: u64 := q1 + q1 / 4096;
    assert 4096 * q2 <= 4097 * q1;
    var q3: u64 := q2 + q2 / 0x100_0000;
    assert 0x100_0000 * q3 <= 0x100_0001 * q2;
    var q4: u64 := q3 + q3 / 0x1_0000_0000_0000;
    quotient := q4 / 32;
  }

  /** Divides by 36: an approximate quotient, the truncated remainder, and one correction. */
  method DivMod36(x: u64) returns (quotient: u64, c: byte)
    ensures quotient == x / 36 && c == x % 36
  {
    var q := ApproximateQuotient(x);
    QuotientBounds(x);
    TruncatedSubtraction(x, q);
    var r: u32 := Low32(Low32(x) - Low32(Low32(q) * 36));
    assert r == x - 36 * q < 72;
    var d: u32 := (r + 28) / 64;
    quotient, c := Correct(x, q, r, d);
  }

  method Correct(x: u64, q: u64, r: u32, d: u32) returns (quotient: u64, c: byte)
    requires r == x - 36 * q < 72 && d == (r + 28) / 64
    ensures quotient == x / 36 && c == x % 36
  {
    assert d == if r > 35 then 1 else 0;
    quotient := q + d;
    c := r - d * 36;
  }

  // ------------------------------------------------------------------ base-36 characters

  /** The cast of an unsigned value below 256 to a signed byte. */
  function Signed8(n: int): int
    requires 0 <= n < 256
  {
    if n < 128 then n else n - 256
  }

  /**
    The branch-free choice of a character: the sign, spread by an arithmetic shift, masks the gap of
    seven between '9' and 'A'. Shifting right by 7 rounds down; masking by 7 takes the low three bits.
  */
  function ToAscii(c: nat): (a: nat)
    requires c < 36
  {
    var spread := Signed8((c + 0x80 - 10) % 256) / 128;
    c + ('0' as int + spread % 8)
  }

  /** The characters 0-9 and A-Z in order. */
  function Char36(d: nat): (c: char)
    requires d < 36
    ensures IsDigit(c) || 'A' <= c <= 'Z'
  {
    if d < 10 then ('0' as int + d) as char else ('A' as int + d - 10) as char
  }

  lemma ToAsciiPicks(c: nat)
    requires c < 36
    ensures ToAscii(c) == Char36(c) as int
  {
    assert c < 10 ==> Signed8(c + 118) / 128 == 0;
    assert c >= 10 ==> Signed8(c + 118) / 128 == -1;
    assert (-1) % 8 == 7;
  }

  function Text36(ds: seq<nat>): (t: string)
    requires N.IsNumeral(36, ds)
    ensures |t| == |ds|
  {
    seq(|ds|, k requires 0 <= k < |ds| => Char36(ds[k]))
  }

  /** The nine-character text of a number. */
  function Text9(n: nat): (t: string)
    ensures |t| == 9
  {
    N.DigitsAreNumeral(36, n, 9);
    Text36(N.Digits(36, n, 9))
  }

  /** What a reader takes a character for. */
  function Digit36(c: char): (d: nat)
    requires IsDigit(c) || 'A' <= c <= 'Z'
    ensures d < 36
  {
    if IsDigit(c) then c as int - '0' as int else c as int - 'A' as int + 10
  }

  predicate IsText36(t: string) {
    forall k :: 0 <= k < |t| ==> IsDigit(t[k]) || 'A' <= t[k] <= 'Z'
  }

  /** The number a text of digits and capital letters stands for in base 36. */
  function Read36(t: string): nat
    requires IsText36(t)
  {
    if t == "" then 0 else Read36(t[..|t| - 1]) * 36 + Digit36(t[|t| - 1])
  }

  lemma {:induction false} TextRead(ds: seq<nat>)
    requires N.IsNumeral(36, ds)
    ensures IsText36(Text36(ds)) && Read36(Text36(ds)) == N.Value(36, ds)
    decreases |ds|
  {
    if ds != [] {
      var front, last := ds[..|ds| - 1], ds[|ds| - 1];
      TextRead(front);
      assert Text36(ds)[..|ds| - 1] == Text36(front);
      assert Digit36(Char36(last)) == last;
    }
  }

  /** The nine characters read as a number are the packed code. */
  lemma Text9Read(n: nat)
    requires n < 0x80_0000_0000
    ensures IsText36(Text9(n)) && Read36(Text9(n)) == n
  {
    NineDigitsSuffice();
    N.DigitsAreNumeral(36, n, 9);
    TextRead(N.Digits(36, n, 9));
    N.ValueOfDigits(36, n, 9);
  }

  lemma NineDigitsSuffice()
    ensures N.Pow(36, 9) > 0x80_0000_0000
  {
    assert N.Pow(36, 3) == 46656;
    assert N.Pow(36, 6) == 46656 * 46656;
    assert N.Pow(36, 9) == 46656 * 46656 * 46656;
  }

  /** Nine characters of base 36 determine every packed code. */
  lemma Text9Injective(m: nat, n: nat)
    requires m < 0x80_0000_0000 && n < 0x80_0000_0000 && Text9(m) == Text9(n)
    ensures m == n
  {
    Text9Read(m);
    Text9Read(n);
  }

  // ------------------------------------------------------------------ the packed code

  datatype Setup = Setup(code: string, id: string)

  /** What goes into a payload; without code and ID `setup` is None. */
  datatype Input = Input(setup: Option<Setup>, isPaired: bool, ip: bool, ble: bool, category: byte)

  /** What the source demands of its callers. */
  predicate Acceptable(i: Input) {
    && (i.setup.Some? ==> !i.isPaired && IsFormatted(i.setup.value.code) && |i.setup.value.id| == 4)
    && (i.ip || i.ble) && i.category > 0
  }

  function Bit(b: bool): nat {
    if b then 1 else 0
  }

  /** A setup code read as a decimal number. */
  function Number(code: string): (n: nat)
    requires IsFormatted(code)
    ensures n < 1_0000_0000
  {
    N.ValueBound(10, CodeDigits(code));
    assert N.Pow(10, 8) == 1_0000_0000 by {
      assert N.Pow(10, 4) == 1_0000;
    }
    N.Value(10, CodeDigits(code))
  }

  function CodeNumber(i: Input): (n: nat)
    requires Acceptable(i)
    ensures n < 1_0000_0000
  {
    if i.setup.None? then 0 else Number(i.setup.value.code)
  }

  /** Category, flags and setup code in their bit positions. */
  function Packed(i: Input): (n: nat)
    requires Acceptable(i)
    ensures n < 0x80_0000_0000
  {
    i.category * 0x8000_0000 + Bit(i.ble) * 0x2000_0000 + Bit(i.ip) * 0x1000_0000 + Bit(i.isPaired) * 0x800_0000
    + CodeNumber(i)
  }

  /** The fields do not overlap, so combining them with OR adds them. */
  lemma OrIsSum(category: bv64, ble: bv64, ip: bv64, paired: bv64, code: bv64)
    requires category <= 0xFF && ble <= 1 && ip <= 1 && paired <= 1 && code < 0x800_0000
    ensures (category << 31) | (ble << 29) | (ip << 28) | (paired << 27) | code
         == (category << 31) + (ble << 29) + (ip << 28) + (paired << 27) + code
  {
  }

  /** Every field is recovered from the packed code. */
  lemma FieldsRecovered(i: Input)
    requires Acceptable(i)
    ensures var n := Packed(i);
            && n / 0x8000_0000 == i.category
            && n / 0x2000_0000 % 2 == Bit(i.ble) && n / 0x1000_0000 % 2 == Bit(i.ip)
            && n / 0x800_0000 % 2 == Bit(i.isPaired)
            && n % 0x800_0000 == CodeNumber(i)
  {
    var h := i.category * 16 + Bit(i.ble) * 4 + Bit(i.ip) * 2 + Bit(i.isPaired);
    HighPart(h, CodeNumber(i));
    FlagBits(i.category, Bit(i.ble), Bit(i.ip), Bit(i.isPaired));
  }

  lemma FlagBits(category: nat, ble: nat, ip: nat, paired: nat)
    requires ble <= 1 && ip <= 1 && paired <= 1
    ensures var h := category * 16 + ble * 4 + ip * 2 + paired;
            h / 16 == category && h / 4 % 2 == ble && h / 2 % 2 == ip && h % 2 == paired
  {
    Halve(category * 8 + ble * 2 + ip, paired);
    Halve(category * 4 + ble, ip);
    Halve(category * 2, ble);
    Halve(category, 0);
  }

  lemma Halve(n: nat, bit: nat)
    requires bit <= 1
    ensures (2 * n + bit) / 2 == n && (2 * n + bit) % 2 == bit
  {
  }

  lemma HighPart(h: nat, low: nat)
    requires low < 0x800_0000
    ensures var n := h * 0x800_0000 + low;
            && n / 0x800_0000 == h && n / 0x1000_0000 == h / 2 && n / 0x2000_0000 == h / 4 && n / 0x8000_0000 == h / 16
            && n % 0x800_0000 == low
  {
  }

  lemma NumberInjective(a: string, b: string)
    requires IsFormatted(a) && IsFormatted(b) && Number(a) == Number(b)
    ensures a == b
  {
    N.DigitsOfValue(10, CodeDigits(a));
    N.DigitsOfValue(10, CodeDigits(b));
    SpelledOnce(a, b);
  }

  lemma {:induction false} ZeroValue(ds: seq<nat>)
    requires forall k :: 0 <= k < |ds| ==> ds[k] == 0
    ensures N.Value(10, ds) == 0
    decreases |ds|
  {
    if ds != [] {
      ZeroValue(ds[..|ds| - 1]);
    }
  }

  // ------------------------------------------------------------------ the payload

  const PREFIX := "X-HM://"

  const NO_ID := "0000"

  function Payload(i: Input): (p: string)
    requires Acceptable(i)
    ensures |p| == 20
  {
    PREFIX + Text9(Packed(i)) + if i.setup.None? then NO_ID else i.setup.value.id
  }

  lemma PayloadParts(i: Input)
    requires Acceptable(i)
    ensures Payload(i)[7..16] == Text9(Packed(i))
    ensures Payload(i)[16..] == if i.setup.None? then NO_ID else i.setup.value.id
  {
  }

  /** The code and ID a reader of the payload sees. */
  function Shown(i: Input): Setup {
    if i.setup.None? then Setup("000-00-000", NO_ID) else i.setup.value
  }

  lemma ShownNumber(i: Input)
    requires Acceptable(i)
    ensures IsFormatted(Shown(i).code) && CodeNumber(i) == Number(Shown(i).code)
  {
    if i.setup.None? {
      ZeroValue(CodeDigits("000-00-000"));
    }
  }

  lemma PayloadReadBack(a: Input, b: Input)
    requires Acceptable(a) && Acceptable(b) && Payload(a) == Payload(b)
    ensures a.isPaired == b.isPaired && a.ip == b.ip && a.ble == b.ble && a.category == b.category
    ensures Shown(a) == Shown(b)
  {
    PayloadParts(a);
    PayloadParts(b);
    Text9Injective(Packed(a), Packed(b));
    FieldsRecovered(a);
    FieldsRecovered(b);
    ShownNumber(a);
    ShownNumber(b);
    NumberInjective(Shown(a).code, Shown(b).code);
  }

  /**
    Two inputs give the same payload exactly when they are the same, but for one family: a missing
    code looks like the code 000-00-000 with the ID 0000.
  */
  lemma PayloadDetermines(a: Input, b: Input)
    requires Acceptable(a) && Acceptable(b)
    ensures Payload(a) == Payload(b) <==>
            && a.isPaired == b.isPaired && a.ip == b.ip && a.ble == b.ble && a.category == b.category
            && Shown(a) == Shown(b)
  {
    if Payload(a) == Payload(b) {
      PayloadReadBack(a, b);
    }
    ShownNumber(a);
    ShownNumber(b);
  }

  /** With valid setup codes the payload determines everything, including whether there is a code. */
  lemma PayloadInjective(a: Input, b: Input)
    requires Acceptable(a) && Acceptable(b) && Payload(a) == Payload(b)
    requires a.setup.Some? ==> IsValidCode(a.setup.value.code)
    requires b.setup.Some? ==> IsValidCode(b.setup.value.code)
    ensures a == b
  {
    PayloadDetermines(a, b);
    assert IsTrivial(CodeDigits("000-00-000"));
  }

  /**
    Whoever reads the payload, character by character, finds the prefix, the category, the flags and
    the digits of the setup code in their places, and the setup ID.
  */
  lemma PayloadReads(i: Input)
    requires Acceptable(i)
    ensures Payload(i)[..7] == "X-HM://" && Payload(i)[16..] == Shown(i).id && IsText36(Payload(i)[7..16])
    ensures var n, code := Read36(Payload(i)[7..16]), Shown(i).code;
            && n / 0x8000_0000 == i.category
            && n / 0x2000_0000 % 2 == Bit(i.ble) && n / 0x1000_0000 % 2 == Bit(i.ip)
            && n / 0x800_0000 % 2 == Bit(i.isPaired)
            && IsFormatted(code) && n % 0x800_0000 == Number(code)
  {
    PayloadParts(i);
    Text9Read(Packed(i));
    FieldsRecovered(i);
    ShownNumber(i);
  }

  /** Fills the template in place: prefix, nine characters from the right, setup ID. */
  method GetSetupPayload(i: Input, setupPayload: array<char>)
    requires Acceptable(i) && setupPayload.Length == 21
    modifies setupPayload
    ensures setupPayload[..] == Payload(i) + ['\0']
  {
    forall k | 0 <= k < 21 {
      setupPayload[k] := '\0';
    }
    CopyString(setupPayload, 0, PREFIX);
    var pl := 7;
    var code := PackCode(i);
    EncodeBase36(code, setupPayload);
    pl := pl + 9;
    CopyString(setupPayload, pl, if i.setup.Some? then i.setup.value.id else NO_ID);
    pl := pl + 4;
    assert setupPayload[pl] == '\0';
    assert setupPayload[..] == setupPayload[0..7] + setupPayload[7..16] + setupPayload[16..20] + [setupPayload[20]];
  }

  method CopyString(setupPayload: array<char>, at: nat, s: string)
    requires at + |s| <= setupPayload.Length
    modifies setupPayload
    ensures setupPayload[at..at + |s|] == s
    ensures forall k :: 0 <= k < setupPayload.Length && !(at <= k < at + |s|) ==>
                          setupPayload[k] == old(setupPayload[k])
  {
    forall k | 0 <= k < |s| {
      setupPayload[at + k] := s[k];
    }
  }

  method PackCode(i: Input) returns (code: u64)
    requires Acceptable(i)
    ensures code == Packed(i)
  {
    code :=
      i.category * 0x8000_0000 + Bit(i.ble) * 0x2000_0000 + Bit(i.ip) * 0x1000_0000 + Bit(i.isPaired) * 0x800_0000;
    if i.setup.Some? {
      var s := i.setup.value.code;
      NumberIsSum(s);
      code := code + (Digit(s[0]) * 1000_0000 + Digit(s[1]) * 100_0000 + Digit(s[2]) * 10_0000 + Digit(s[4]) * 1_0000
                      + Digit(s[5]) * 1000 + Digit(s[7]) * 100 + Digit(s[8]) * 10 + Digit(s[9]));
    }
  }

  function Digit(c: char): nat
    requires IsDigit(c)
  {
    c as int - '0' as int
  }

  lemma NumberIsSum(s: string)
    requires IsFormatted(s)
    ensures Number(s) == Digit(s[0]) * 1000_0000 + Digit(s[1]) * 100_0000 + Digit(s[2]) * 10_0000 + Digit(s[4]) * 1_0000
                         + Digit(s[5]) * 1000 + Digit(s[7]) * 100 + Digit(s[8]) * 10 + Digit(s[9])
  {
    var ds := CodeDigits(s);
    assert forall k :: 1 <= k <= 8 ==> ds[..k][..k - 1] == ds[..k - 1];
    assert N.Value(10, ds[..1]) == Digit(s[0]);
    assert N.Value(10, ds[..2]) == N.Value(10, ds[..1]) * 10 + Digit(s[1]);
    assert N.Value(10, ds[..3]) == N.Value(10, ds[..2]) * 10 + Digit(s[2]);
    assert N.Value(10, ds[..4]) == N.Value(10, ds[..3]) * 10 + Digit(s[4]);
    assert N.Value(10, ds[..5]) == N.Value(10, ds[..4]) * 10 + Digit(s[5]);
    assert N.Value(10, ds[..6]) == N.Value(10, ds[..5]) * 10 + Digit(s[7]);
    assert N.Value(10, ds[..7]) == N.Value(10, ds[..6]) * 10 + Digit(s[8]);
    assert ds[..8] == ds;
  }

  /** The last digits `ds` of nine are in place, `rest` holds the ones still to come. */
  predicate WrittenDigits(code: nat, rest: nat, ds: seq<nat>, t: string)
    requires |ds| <= 9 && |t| == 9
  {
    && N.IsNumeral(36, ds) && N.Digits(36, code, 9) == N.Digits(36, rest, 9 - |ds|) + ds
    && t[9 - |ds|..] == Text36(ds)
  }

  lemma TextExtended(ds: seq<nat>, t: string, c: nat)
    requires |ds| < 9 && |t| == 9 && N.IsNumeral(36, ds) && c < 36 && t[9 - |ds|..] == Text36(ds)
    ensures N.IsNumeral(36, [c] + ds) && t[8 - |ds| := Char36(c)][8 - |ds|..] == Text36([c] + ds)
  {
    assert t[8 - |ds| := Char36(c)][8 - |ds|..] == [Char36(c)] + t[9 - |ds|..];
    assert Text36([c] + ds) == [Char36(c)] + Text36(ds);
  }

  lemma OneMoreDigit(code: nat, rest: nat, ds: seq<nat>, t: string, c: nat)
    requires |ds| < 9 && |t| == 9 && WrittenDigits(code, rest, ds, t) && c == rest % 36
    ensures WrittenDigits(code, rest / 36, [c] + ds, t[8 - |ds| := Char36(c)])
  {
    N.DigitsExtended(36, N.Digits(36, code, 9), rest, 9 - |ds|, ds);
    TextExtended(ds, t, c);
  }

  /** Writes the lowest nine base-36 digits of `code` into `pl[7..16]`, big endian. */
  method EncodeBase36(code: u64, pl: array<char>)
    requires pl.Length == 21
    modifies pl
    ensures pl[7..16] == Text9(code)
    ensures forall k :: 0 <= k < 21 && !(7 <= k < 16) ==> pl[k] == old(pl[k])
  {
    var rest: u64 := code;
    var i := 0;
    ghost var ds: seq<nat> := [];
    while i < 9
      invariant 0 <= i <= 9 && |ds| == i && WrittenDigits(code, rest, ds, pl[7..16])
      invariant forall k :: 0 <= k < 21 && !(7 <= k < 16) ==> pl[k] == old(pl[k])
    {
      ghost var t := pl[7..16];
      var next, c := DivMod36(rest);
      ToAsciiPicks(c);
      pl[7 + 8 - i] := ToAscii(c) as char;
      OneMoreDigit(code, rest, ds, t, c);
      assert pl[7..16] == t[8 - i := Char36(c)];
      rest, ds := next, [c as nat] + ds;
      i := i + 1;
    }
    assert N.Digits(36, code, 9) == ds;
    assert pl[7..16][0..] == pl[7..16];
  }
}
