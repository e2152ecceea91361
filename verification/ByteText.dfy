/** Byte strings in the order a key-value store keeps them, and the decimal text that
    keys are built from. */
module ByteText {
  import opened Wrappers

  newtype byte = x: int | 0 <= x < 256

  type Bytes = seq<byte>

  /** UnixNano and ParseInt(…, 64) work on signed 64-bit integers. */
  const MIN_INT64: int := -0x8000_0000_0000_0000
  const MAX_INT64: int := 0x7fff_ffff_ffff_ffff

  type int64 = x: int | MIN_INT64 <= x <= MAX_INT64

  const COLON: byte := 58
  const MINUS: byte := 45
  const PLUS: byte := 43

  // ---------- Lexicographic order ----------

  /** bytes.Compare(a, b) < 0 */
  predicate Less(a: Bytes, b: Bytes) {
    if |b| == 0 then false
    else if |a| == 0 then true
    else a[0] < b[0] || (a[0] == b[0] && Less(a[1..], b[1..]))
  }

  lemma {:induction false} LessIrreflexive(a: Bytes)
    ensures !Less(a, a)
  {
    if a != [] {
      LessIrreflexive(a[1..]);
    }
  }

  lemma {:induction false} LessTransitive(a: Bytes, b: Bytes, c: Bytes)
    requires Less(a, b) && Less(b, c)
    ensures Less(a, c)
  {
    if a != [] && a[0] == b[0] == c[0] {
      LessTransitive(a[1..], b[1..], c[1..]);
    }
  }

  lemma {:induction false} LessTotal(a: Bytes, b: Bytes)
    ensures a == b || Less(a, b) || Less(b, a)
    ensures !(Less(a, b) && Less(b, a))
  {
    if a != [] && b != [] && a[0] == b[0] {
      LessTotal(a[1..], b[1..]);
      assert a == [a[0]] + a[1..] && b == [b[0]] + b[1..];
    }
  }

  lemma {:induction false} LessAfterCommonPrefix(p: Bytes, a: Bytes, b: Bytes)
    ensures Less(p + a, p + b) <==> Less(a, b)
  {
    if p == [] {
      assert p + a == a && p + b == b;
    } else {
      LessAfterCommonPrefix(p[1..], a, b);
      assert (p + a)[1..] == p[1..] + a && (p + b)[1..] == p[1..] + b;
    }
  }

  /** Behind parts of one width, what follows only decides a tie. */
  lemma {:induction false} LessByFirstPart(p: Bytes, q: Bytes, a: Bytes, b: Bytes)
    requires |p| == |q|
    ensures Less(p + a, q + b) <==> Less(p, q) || (p == q && Less(a, b))
  {
    if p == [] {
      assert p + a == a && q + b == b;
    } else {
      LessByFirstPart(p[1..], q[1..], a, b);
      assert (p + a)[1..] == p[1..] + a && (q + b)[1..] == q[1..] + b;
      assert p == [p[0]] + p[1..] && q == [q[0]] + q[1..];
    }
  }

  /** Between texts of one width, the last byte only decides a tie. */
  lemma {:induction false} LessAppend(p: Bytes, x: byte, q: Bytes, y: byte)
    requires |p| == |q|
    ensures Less(p + [x], q + [y]) <==> Less(p, q) || (p == q && x < y)
  {
    if p != [] {
      LessAppend(p[1..], x, q[1..], y);
      assert (p + [x])[1..] == p[1..] + [x] && (q + [y])[1..] == q[1..] + [y];
      assert p == [p[0]] + p[1..] && q == [q[0]] + q[1..];
    }
  }

  /** A key followed by a zero byte is the immediate successor of the key: nothing fits between. */
  lemma {:induction false} ZeroByteSuccessor(k: Bytes, x: Bytes)
    ensures Less(x, k + [0]) <==> x == k || Less(x, k)
  {
    if k != [] && x != [] && x[0] == k[0] {
      ZeroByteSuccessor(k[1..], x[1..]);
      assert (k + [0])[1..] == k[1..] + [0];
      assert k == [k[0]] + k[1..] && x == [x[0]] + x[1..];
    }
    if k == [] && x != [] {
      assert x[1..] == [] ==> x == [x[0]];
    }
  }

  /** The keys that carry a prefix are contiguous. */
  lemma {:induction false} PrefixContiguous(p: Bytes, a: Bytes, x: Bytes, b: Bytes)
    requires p <= a && p <= b
    requires !Less(x, a) && !Less(b, x)
    ensures p <= x
  {
    if p != [] {
      assert p[0] == a[0] == b[0];
      assert x != [] && x[0] == p[0];
      PrefixContiguous(p[1..], a[1..], x[1..], b[1..]);
      assert p == [p[0]] + p[1..] && x == [x[0]] + x[1..];
    }
  }

  lemma {:induction false} PrefixIsLeast(p: Bytes, a: Bytes)
    requires p <= a
    ensures !Less(a, p)
  {
    if p != [] {
      PrefixIsLeast(p[1..], a[1..]);
    }
  }

  // ---------- Decimal text ----------

  /** fmt's %d of a natural number */
  function Digits(n: nat): Bytes {
    if n < 10 then [(48 + n) as byte] else Digits(n / 10) + [(48 + n % 10) as byte]
  }

  /** fmt's %d of a signed number */
  function FormatInt(n: int): Bytes {
    if n < 0 then [MINUS] + Digits(-n) else Digits(n)
  }

  function Pow10(k: nat): nat {
    if k == 0 then 1 else 10 * Pow10(k - 1)
  }

  lemma {:induction false} DigitsAreDigits(n: nat)
    ensures |Digits(n)| >= 1
    ensures forall i :: 0 <= i < |Digits(n)| ==> 48 <= Digits(n)[i] <= 57
  {
    if n >= 10 {
      DigitsAreDigits(n / 10);
    }
  }

  /** A text has k digits exactly when the number lies between consecutive powers of ten. */
  lemma {:induction false} DigitsWidth(n: nat, k: nat)
    requires k >= 1
    ensures |Digits(n)| == k <==> (k == 1 || Pow10(k - 1) <= n) && n < Pow10(k)
  {
    if n < 10 {
      if k > 1 {
        PowerAtLeastTen(k - 1);
      }
    } else {
      DigitsAreDigits(n / 10);
      if k > 1 {
        DigitsWidth(n / 10, k - 1);
        assert Pow10(k) == 10 * Pow10(k - 1);
        assert n / 10 < Pow10(k - 1) <==> n < Pow10(k);
        if k > 2 {
          assert Pow10(k - 1) == 10 * Pow10(k - 2);
        }
      }
    }
  }

  lemma {:induction false} PowerAtLeastTen(k: nat)
    requires k >= 1
    ensures Pow10(k) >= 10
  {
    if k > 1 {
      PowerAtLeastTen(k - 1);
    }
  }

  /** Decimal text order is numeric order between texts of one width. */
  lemma {:induction false} TextOrderIsNumeric(a: nat, b: nat)
    requires |Digits(a)| == |Digits(b)|
    ensures Less(Digits(a), Digits(b)) <==> a < b
    ensures Digits(a) == Digits(b) <==> a == b
  {
    DigitsAreDigits(a / 10);
    DigitsAreDigits(b / 10);
    if a >= 10 && b >= 10 {
      var p, q := Digits(a / 10), Digits(b / 10);
      var x, y := (48 + a % 10) as byte, (48 + b % 10) as byte;
      TextOrderIsNumeric(a / 10, b / 10);
      LessAppend(p, x, q, y);
      assert Digits(a)[..|p|] == p && Digits(b)[..|q|] == q;
      assert Digits(a)[|p|] == x && Digits(b)[|q|] == y;
      LessTotal(p, q);
    }
  }

  /** Against a longer text of digits, a zero behind the shorter text makes no difference. */
  lemma {:induction false} LessZeroPadded(t: Bytes, s: Bytes)
    requires |s| < |t| && forall i :: 0 <= i < |t| ==> 48 <= t[i]
    ensures Less(t, s) <==> Less(t, s + [48])
  {
    if s != [] {
      LessZeroPadded(t[1..], s[1..]);
      assert (s + [48])[1..] == s[1..] + [48];
    }
  }

  /** n with zeros appended until it has no fewer digits than width, a power of ten, has. */
  function Padded(n: nat, width: nat): (r: nat)
    ensures n <= r && (n > 0 ==> width <= r)
    decreases width - n
  {
    if n == 0 || width <= n then n else Padded(10 * n, width)
  }

  /** The text of t comes before the shorter text of n exactly if t is below n padded to the width of t. */
  lemma {:induction false} TextOrderIsPadded(t: nat, n: nat, k: nat)
    requires k >= 1 && |Digits(t)| == k && n < Pow10(k)
    ensures Less(Digits(t), Digits(n)) <==> t < Padded(n, Pow10(k - 1))
    decreases Pow10(k) - n
  {
    DigitsAreDigits(t);
    DigitsWidth(n, k);
    if n > 0 && n < Pow10(k - 1) {
      assert Pow10(k) == 10 * Pow10(k - 1);
      ShorterText(n, k);
      LessZeroPadded(Digits(t), Digits(n));
      assert Digits(10 * n) == Digits(n) + [48];
      TextOrderIsPadded(t, 10 * n, k);
    } else if n == 0 && k > 1 {
      assert Digits(0) == [48] && !Less(Digits(t), [48]);
    } else {
      TextOrderIsNumeric(t, n);
    }
  }

  lemma {:induction false} ShorterText(n: nat, k: nat)
    requires k >= 2 && n < Pow10(k - 1)
    ensures |Digits(n)| < k
    decreases k
  {
    if k == 2 {
      assert Pow10(1) == 10 * Pow10(0);
    } else if n >= 10 {
      assert Pow10(k - 1) == 10 * Pow10(k - 2);
      ShorterText(n / 10, k - 1);
    }
  }

  lemma DigitsInjective(a: nat, b: nat)
    requires Digits(a) == Digits(b)
    ensures a == b
  {
    TextOrderIsNumeric(a, b);
  }

  lemma FormatIntColonFree(n: int)
    ensures COLON !in FormatInt(n)
  {
    DigitsAreDigits(if n < 0 then -n else n);
  }

  // ---------- Parsing ----------

  /** The value of a non-empty run of digits. */
  function ParseDigits(s: Bytes): Option<nat> {
    if |s| == 0 || s[|s| - 1] < 48 || s[|s| - 1] > 57 then None
    else
      var last := s[|s| - 1] as int - 48;
      if |s| == 1 then Some(last)
      else match ParseDigits(s[..|s| - 1])
           case None => None
           case Some(v) => Some(10 * v + last)
  }

  /** strconv.ParseInt(s, 10, 64): an optional sign, at least one digit, and the 64-bit range. */
  function ParseInt64(s: Bytes): Option<int> {
    if |s| == 0 then None
    else
      var negative := s[0] == MINUS;
      var body := if negative || s[0] == PLUS then s[1..] else s;
      match ParseDigits(body)
      case None => None
      case Some(v) =>
        var n: int := if negative then -(v as int) else v;
        if MIN_INT64 <= n <= MAX_INT64 then Some(n) else None
  }

  lemma {:induction false} ParseDigitsRoundTrip(n: nat)
    ensures ParseDigits(Digits(n)) == Some(n)
  {
    if n >= 10 {
      ParseDigitsRoundTrip(n / 10);
      assert Digits(n)[..|Digits(n)| - 1] == Digits(n / 10);
    }
  }

  /** Parsing undoes formatting on every 64-bit integer. */
  lemma ParseIntRoundTrip(n: int64)
    ensures ParseInt64(FormatInt(n)) == Some(n)
  {
    var m: int := n;
    var v: nat := if m < 0 then -m else m;
    DigitsAreDigits(v);
    ParseDigitsRoundTrip(v);
    if n < 0 {
      assert FormatInt(n)[1..] == Digits(v);
    }
  }
}
