/**
 * Turning the configured image size `WIDTHxHEIGHT` into one of the five
 * aspect-ratio tokens the image model accepts (FIH_Gemini::gcd and
 * FIH_Gemini::convert_size_to_aspect_ratio). The plugin compares floating
 * point ratios against a tolerance of 0.1; here every comparison is made
 * exactly, on integers.
 */
module AspectRatio {
  import opened Text
  import opened Wrappers

  /** The supported ratios, in the order convert_size_to_aspect_ratio tries them. */
  datatype Ratio = Square | Portrait3x4 | Landscape4x3 | Portrait9x16 | Landscape16x9

  const Order: seq<Ratio> := [Square, Portrait3x4, Landscape4x3, Portrait9x16, Landscape16x9]

  function Width(r: Ratio): nat {
    match r
    case Square => 1
    case Portrait3x4 => 3
    case Landscape4x3 => 4
    case Portrait9x16 => 9
    case Landscape16x9 => 16
  }

  function Height(r: Ratio): nat {
    match r
    case Square => 1
    case Portrait3x4 => 4
    case Landscape4x3 => 3
    case Portrait9x16 => 16
    case Landscape16x9 => 9
  }

  /** The token sent as `imageConfig.aspectRatio`. */
  function Token(r: Ratio): string {
    match r
    case Square => "1:1"
    case Portrait3x4 => "3:4"
    case Landscape4x3 => "4:3"
    case Portrait9x16 => "9:16"
    case Landscape16x9 => "16:9"
  }

  // ---------------------------------------------------------------------
  // Euclid's algorithm

  /** FIH_Gemini::gcd, `$b ? gcd($b, $a % $b) : $a`, on the non-negative
      values it is called with. */
  function Gcd(a: nat, b: nat): (g: nat)
    ensures a > 0 || b > 0 ==> g > 0
    ensures g <= a || g <= b
    decreases b
  {
    if b == 0 then a else Gcd(b, a % b)
  }

  /** The result divides both arguments. */
  lemma {:induction false} GcdDivides(a: nat, b: nat)
    requires a > 0 || b > 0
    ensures a % Gcd(a, b) == 0 && b % Gcd(a, b) == 0
    decreases b
  {
    var g := Gcd(a, b);
    if b == 0 {
      MulMod(a, 1);
      MulMod(a, 0);
    } else {
      GcdDivides(b, a % b);
      assert g == Gcd(b, a % b);
      DividesDividend(a, b, g);
    }
  }

  /** A divisor of `b` and of `a % b` divides `a`. */
  lemma DividesDividend(a: nat, b: nat, g: nat)
    requires b > 0 && g > 0 && b % g == 0 && (a % b) % g == 0
    ensures a % g == 0
  {
    ModMul(b, g);
    ModMul(a % b, g);
    var p, q, t := b / g, (a % b) / g, a / b;
    assert a == b * t + a % b;
    assert b * t == g * (p * t);
    assert a == g * (p * t + q);
    MulMod(g, p * t + q);
  }

  /** Every common divisor of the arguments divides the result. */
  lemma {:induction false} GcdGreatest(a: nat, b: nat, d: nat)
    requires d > 0 && a % d == 0 && b % d == 0
    ensures Gcd(a, b) % d == 0
    decreases b
  {
    if b != 0 {
      ModMul(a, d);
      ModMul(b, d);
      var x, y := a / d, b / d;
      assert a % b == a - b * (a / b);
      assert a % b == d * (x - y * (a / b)) by {
        assert b * (a / b) == d * y * (a / b);
      }
      assert x - y * (a / b) >= 0;
      MulMod(d, x - y * (a / b));
      GcdGreatest(b, a % b, d);
    }
  }

  /** The argument order does not matter. */
  lemma GcdCommutes(a: nat, b: nat)
    ensures Gcd(a, b) == Gcd(b, a)
  {
    if a < b {
      ModSmall(a, b);
    } else if b < a {
      ModSmall(b, a);
    }
  }

  /** Dividing both dimensions by their gcd leaves a ratio in lowest terms. */
  lemma ReducedIsCoprime(w: nat, h: nat)
    requires w > 0 && h > 0
    ensures var g := Gcd(w, h); Gcd(w / g, h / g) == 1
  {
    var g := Gcd(w, h);
    GcdDivides(w, h);
    var x, y := w / g, h / g;
    ModMul(w, g);
    ModMul(h, g);
    var d := Gcd(x, y);
    GcdDivides(x, y);
    var gd := ScaledDivisor(w, g, x, d);
    var _ := ScaledDivisor(h, g, y, d);
    GcdGreatest(w, h, gd);
    UnitFactor(g, d);
  }

  /** If `w == g * x` and `d` divides `x`, then `g * d` divides `w`. */
  lemma ScaledDivisor(w: nat, g: nat, x: nat, d: nat) returns (gd: nat)
    requires g > 0 && d > 0 && w == g * x && x % d == 0
    ensures gd == g * d && gd > 0 && w % gd == 0
  {
    ModMul(x, d);
    gd := g * d;
    MulAtLeast(g, d);
    assert w == gd * (x / d);
    MulMod(gd, x / d);
  }

  /** A positive `g` divisible by `g * d` forces `d == 1`. */
  lemma UnitFactor(g: nat, d: nat)
    requires g > 0 && d > 0 && g * d > 0 && g % (g * d) == 0
    ensures d == 1
  {
    if d >= 2 {
      ModMul(g, g * d);
      var t := g / (g * d);
      if t != 0 {
        MulAtLeast(g * d, t);
        MulAtLeast(g, d - 1);
      }
    }
  }

  lemma MulMod(g: nat, m: int)
    requires g > 0
    ensures (g * m) % g == 0 && (g * m) / g == m
  {
    var q, r := (g * m) / g, (g * m) % g;
    assert g * (m - q) == r;
    if m - q >= 1 {
      MulAtLeast(g, m - q);
    } else if m - q <= -1 {
      MulAtLeast(g, q - m);
    }
  }

  lemma ModSmall(a: nat, b: nat)
    requires a < b
    ensures a % b == a
  {
    var q, r := a / b, a % b;
    assert a == b * q + r;
    if q >= 1 {
      MulAtLeast(b, q);
    }
  }

  lemma MulAtLeast(g: nat, k: int)
    requires k >= 1
    ensures g * k >= g
  {
    assert g * k == g * (k - 1) + g;
  }

  lemma ModMul(a: nat, g: nat)
    requires g > 0 && a % g == 0
    ensures a == g * (a / g)
  {
  }

  // ---------------------------------------------------------------------
  // the classification

  /** The string `"$ratio_width:$ratio_height"` convert_size_to_aspect_ratio builds. */
  function RatioString(rw: nat, rh: nat): string {
    Decimal(rw) + ":" + Decimal(rh)
  }

  /** `in_array($ratio_string, $supported_ratios, true)`, first match in `Order`. */
  function ExactRatio(rw: nat, rh: nat): (r: Option<Ratio>)
    ensures r.Some? ==> RatioString(rw, rh) == Token(r.value)
  {
    var s := RatioString(rw, rh);
    if s == Token(Square) then Some(Square)
    else if s == Token(Portrait3x4) then Some(Portrait3x4)
    else if s == Token(Landscape4x3) then Some(Landscape4x3)
    else if s == Token(Portrait9x16) then Some(Portrait9x16)
    else if s == Token(Landscape16x9) then Some(Landscape16x9)
    else None
  }

  /** The nominal value convert_size_to_aspect_ratio compares `w / h` against, as a fraction
      `Num / Den`: 1, 0.75, 1.33, 0.5625 and 1.78. */
  function Num(r: Ratio): nat {
    match r
    case Square => 1
    case Portrait3x4 => 75
    case Landscape4x3 => 133
    case Portrait9x16 => 5625
    case Landscape16x9 => 178
  }

  function Den(r: Ratio): nat {
    match r
    case Square => 1
    case Portrait3x4 => 100
    case Landscape4x3 => 100
    case Portrait9x16 => 10000
    case Landscape16x9 => 100
  }

  function Abs(x: int): nat {
    if x < 0 then -x else x
  }

  /** `abs(w / h - Num / Den) < 0.1`, multiplied out and decided exactly.
      PHP decides it on doubles, which can disagree when `w / h` lies exactly
      0.1 from a nominal value: 900x1000 passes PHP's test for 1:1 because
      `abs(0.9 - 1)` evaluates to 0.09999999999999998, and fails this one. */
  predicate Within(w: nat, h: nat, r: Ratio) {
    10 * Abs(w * Den(r) - Num(r) * h) < Den(r) * h
  }

  /** The tolerance chain and the orientation default of
      convert_size_to_aspect_ratio: the first ratio of `Order` within 0.1 of
      `w / h`, and otherwise 16:9 for `w >= h` and 9:16 for `w < h`. */
  function NearestRatio(w: nat, h: nat): (r: Ratio)
    requires h > 0
    ensures forall k :: 0 <= k < |Order| && Order[k] == r ==>
      forall j :: 0 <= j < k ==> !Within(w, h, Order[j])
    ensures Within(w, h, r) || ((forall k :: 0 <= k < |Order| ==> !Within(w, h, Order[k]))
                                && r == (if w >= h then Landscape16x9 else Portrait9x16))
  {
    if Within(w, h, Square) then Square
    else if Within(w, h, Portrait3x4) then Portrait3x4
    else if Within(w, h, Landscape4x3) then Landscape4x3
    else if Within(w, h, Portrait9x16) then Portrait9x16
    else if Within(w, h, Landscape16x9) then Landscape16x9
    else if w >= h then Landscape16x9 else Portrait9x16
  }

  /** The whole decision for positive dimensions: the gcd-reduced ratio when
      it is one of the five exactly, the tolerance chain otherwise. */
  function Classify(w: nat, h: nat): (r: Ratio)
    requires w > 0 && h > 0
  {
    var g := Gcd(w, h);
    match ExactRatio(w / g, h / g)
    case Some(exact) => exact
    case None => NearestRatio(w, h)
  }

  /** FIH_Gemini::convert_size_to_aspect_ratio: `None` stands for `null`. */
  function ConvertSizeToAspectRatio(size: string): (r: Option<Ratio>)
    ensures Occurrences(ToLowerAscii(size), 'x') != 1 ==> r.None?
  {
    var parts := Split(ToLowerAscii(size), 'x');
    if |parts| != 2 then None
    else
      var w, h := IntVal(parts[0]), IntVal(parts[1]);
      if w <= 0 || h <= 0 then None else Some(Classify(w, h))
  }

  /** The size has no ratio exactly when its lower-cased text does not split
      on `x` into two pieces or either piece's `intval` is not positive;
      otherwise the ratio is the first of the tolerance chain for the two
      values, as the exact-match step never changes the answer. */
  lemma ConvertSizeSpec(size: string)
    ensures var p := Split(ToLowerAscii(size), 'x');
      var r := ConvertSizeToAspectRatio(size);
      (r.None? <==> |p| != 2 || IntVal(p[0]) <= 0 || IntVal(p[1]) <= 0)
      && (r.Some? ==> r.value == NearestRatio(IntVal(p[0]), IntVal(p[1])))
  {
    var p := Split(ToLowerAscii(size), 'x');
    if |p| == 2 && IntVal(p[0]) > 0 && IntVal(p[1]) > 0 {
      ExactMatchAgreesWithNearest(IntVal(p[0]), IntVal(p[1]));
    }
  }

  // ---------------------------------------------------------------------
  // properties

  /** The exact string comparison holds only for the ratio's own pair. */
  lemma RatioStringMatches(rw: nat, rh: nat, r: Ratio)
    ensures RatioString(rw, rh) == Token(r) <==> rw == Width(r) && rh == Height(r)
  {
    TokenIsRatioString(r);
    if RatioString(rw, rh) == Token(r) {
      DecimalHasNoColon(rw);
      DecimalHasNoColon(rh);
      DecimalHasNoColon(Width(r));
      DecimalHasNoColon(Height(r));
      SplitTwo(Decimal(rw), Decimal(rh), ':');
      SplitTwo(Decimal(Width(r)), Decimal(Height(r)), ':');
      DecimalValue(rw);
      DecimalValue(rh);
      DecimalValue(Width(r));
      DecimalValue(Height(r));
    }
  }

  lemma TokenIsRatioString(r: Ratio)
    ensures Token(r) == RatioString(Width(r), Height(r))
  {
    assert Decimal(1) == "1" && Decimal(3) == "3" && Decimal(4) == "4" && Decimal(9) == "9";
    assert Decimal(16) == Decimal(1) + "6";
  }

  lemma DecimalHasNoColon(n: nat)
    ensures ':' !in Decimal(n) && 'x' !in Decimal(n)
  {
    var s := Decimal(n);
    assert forall k :: 0 <= k < |s| ==> s[k] != ':' && s[k] != 'x';
  }

  /** The exact-match step never changes the answer: each supported ratio,
      met exactly, is also the first one the tolerance chain accepts. So the
      result depends on `w / h` only through the tolerance chain. */
  lemma ExactMatchAgreesWithNearest(w: nat, h: nat)
    requires w > 0 && h > 0
    ensures Classify(w, h) == NearestRatio(w, h)
  {
    var g := Gcd(w, h);
    GcdDivides(w, h);
    var e := ExactRatio(w / g, h / g);
    if e.Some? {
      var r := e.value;
      RatioStringMatches(w / g, h / g, r);
      ModMul(w, g);
      ModMul(h, g);
      NearestScale(g, Width(r), Height(r));
      NearestOfOwnPair(r);
    }
  }

  /** Each supported ratio, given as its own pair, is found by the chain. */
  lemma NearestOfOwnPair(r: Ratio)
    ensures NearestRatio(Width(r), Height(r)) == r
  {
  }

  /** Scaling both dimensions by the same factor does not change the result. */
  lemma ScaleInvariant(w: nat, h: nat, k: nat)
    requires w > 0 && h > 0 && k > 0
    ensures Classify(k * w, k * h) == Classify(w, h)
  {
    var kw, kh := k * w, k * h;
    MulAtLeast(w, k);
    MulAtLeast(h, k);
    ExactMatchAgreesWithNearest(w, h);
    ExactMatchAgreesWithNearest(kw, kh);
    NearestScale(k, w, h);
  }

  lemma NearestScale(k: nat, w: nat, h: nat)
    requires k > 0 && h > 0
    ensures NearestRatio(k * w, k * h) == NearestRatio(w, h)
  {
    WithinScale(k, w, h, Square);
    WithinScale(k, w, h, Portrait3x4);
    WithinScale(k, w, h, Landscape4x3);
    WithinScale(k, w, h, Portrait9x16);
    WithinScale(k, w, h, Landscape16x9);
    MulLess(k, w, h);
    MulLess(k, h, w);
  }

  lemma WithinScale(k: nat, w: nat, h: nat, r: Ratio)
    requires k > 0
    ensures Within(k * w, k * h, r) <==> Within(w, h, r)
  {
    ScaleCompare(k, w, h, Num(r), Den(r));
  }

  lemma ScaleCompare(k: nat, w: nat, h: nat, n: nat, d: nat)
    requires k > 0
    ensures 10 * Abs((k * w) * d - n * (k * h)) < d * (k * h) <==> 10 * Abs(w * d - n * h) < d * h
  {
    var x := w * d - n * h;
    ScaleDiff(k, w, h, n, d);
    AbsScale(k, x);
    MulLess(k, 10 * Abs(x), d * h);
    Regroup(k, Abs(x), d, h);
  }

  lemma ScaleDiff(k: nat, w: nat, h: nat, n: nat, d: nat)
    ensures (k * w) * d - n * (k * h) == k * (w * d - n * h)
  {
    assert (k * w) * d == k * (w * d);
    assert n * (k * h) == k * (n * h);
    assert k * (w * d) - k * (n * h) == k * (w * d - n * h);
  }

  lemma AbsScale(k: nat, x: int)
    ensures Abs(k * x) == k * Abs(x)
  {
    if x < 0 {
      assert k * x == -(k * -x);
    }
  }

  lemma Regroup(k: nat, a: nat, d: nat, h: nat)
    ensures 10 * (k * a) == k * (10 * a) && d * (k * h) == k * (d * h)
  {
  }

  lemma MulLess(k: nat, a: int, b: int)
    requires k > 0
    ensures k * a < k * b <==> a < b
  {
    if a < b {
      MulAtLeast(k, b - a);
    } else {
      assert k * a - k * b == k * (a - b);
      assert k * (a - b) >= 0;
    }
  }

  /** The string form: a well-formed `WxH` (either case of `x`) of positive
      decimal numbers is classified, and a zero dimension gives no ratio. */
  lemma ConvertDecimalSize(w: nat, h: nat, sep: char)
    requires sep == 'x' || sep == 'X'
    ensures ConvertSizeToAspectRatio(Decimal(w) + [sep] + Decimal(h))
         == if w > 0 && h > 0 then Some(Classify(Saturate(w), Saturate(h))) else None
  {
    var a, b := Decimal(w), Decimal(h);
    SplitSize(a, b, sep);
    IntValDecimal(w);
    IntValDecimal(h);
    if w > 0 && h > 0 {
      ExactMatchAgreesWithNearest(Saturate(w), Saturate(h));
    }
  }

  /** A size with a negative width has no ratio, whatever its height. */
  lemma NegativeWidthHasNoRatio(w: nat, h: nat)
    ensures ConvertSizeToAspectRatio("-" + Decimal(w) + "x" + Decimal(h)) == None
  {
    var a, b := "-" + Decimal(w), Decimal(h);
    DecimalHasNoColon(w);
    assert 'x' !in a;
    SplitSize(a, b, 'x');
    IntValNegated(w);
  }

  /** A width written as `MeE` is read as M·10^E, as PHP 7.1 and later read it. */
  lemma ScientificWidth(m: nat, e: nat, h: nat)
    requires m * Pow10(e) <= PhpIntMax && h <= PhpIntMax
    ensures ConvertSizeToAspectRatio(Decimal(m) + "e" + Decimal(e) + "x" + Decimal(h))
         == if m * Pow10(e) > 0 && h > 0 then Some(Classify(m * Pow10(e), h)) else None
  {
    var a, b := Decimal(m) + "e" + Decimal(e), Decimal(h);
    ScientificLetters(m, e);
    SplitSize(a, b, 'x');
    IntValScientific(m, e);
    IntValDecimal(h);
    if m * Pow10(e) > 0 && h > 0 {
      ExactMatchAgreesWithNearest(m * Pow10(e), h);
    }
  }

  lemma ScientificLetters(m: nat, e: nat)
    ensures var a := Decimal(m) + "e" + Decimal(e);
      forall k :: 0 <= k < |a| ==> !('A' <= a[k] <= 'Z') && a[k] != 'x'
  {
    var dm, de := Decimal(m), Decimal(e);
    var a := dm + "e" + de;
    forall k | 0 <= k < |a|
      ensures !('A' <= a[k] <= 'Z') && a[k] != 'x'
    {
      if k < |dm| {
        assert a[k] == dm[k];
      } else if k > |dm| {
        assert a[k] == de[k - |dm| - 1];
      }
    }
  }

  /** "1e3x630" is 1000 by 630, which falls outside every window and is wider
      than tall. */
  lemma ThousandBySixThirty()
    ensures ConvertSizeToAspectRatio("1e3x630") == Some(Landscape16x9)
  {
    assert Decimal(1) == "1" && Decimal(3) == "3";
    assert Decimal(63) == "63";
    assert Decimal(630) == "630";
    assert Pow10(3) == 1000;
    assert Decimal(1) + "e" + Decimal(3) + "x" + Decimal(630) == "1e3x630";
    ScientificWidth(1, 3, 630);
    ExactMatchAgreesWithNearest(1000, 630);
    assert NearestRatio(1000, 630) == Landscape16x9;
  }

  /** `strtolower` and `explode('x', ...)` of `A` `x|X` `B`, for pieces
      without letters of their own. */
  lemma SplitSize(a: string, b: string, sep: char)
    requires sep == 'x' || sep == 'X'
    requires forall k :: 0 <= k < |a| ==> !('A' <= a[k] <= 'Z') && a[k] != 'x'
    requires forall k :: 0 <= k < |b| ==> !('A' <= b[k] <= 'Z') && b[k] != 'x'
    ensures Split(ToLowerAscii(a + [sep] + b), 'x') == [a, b]
  {
    LowerDecimalSize(a, b, sep);
    assert 'x' !in a && 'x' !in b;
    SplitTwo(a, b, 'x');
  }

  lemma LowerDecimalSize(a: string, b: string, sep: char)
    requires sep == 'x' || sep == 'X'
    requires forall k :: 0 <= k < |a| ==> !('A' <= a[k] <= 'Z')
    requires forall k :: 0 <= k < |b| ==> !('A' <= b[k] <= 'Z')
    ensures ToLowerAscii(a + [sep] + b) == a + "x" + b
  {
    var s := a + [sep] + b;
    var low := ToLowerAscii(s);
    var t := a + "x" + b;
    forall k | 0 <= k < |t|
      ensures low[k] == t[k]
    {
      if k < |a| {
        assert s[k] == a[k];
      } else if k == |a| {
        assert s[k] == sep;
      } else {
        assert s[k] == b[k - |a| - 1];
      }
    }
  }

  /** The sizes pinned by the plugin's tests. */
  lemma TestedSizes()
    ensures Classify(1200, 1200) == Square && Classify(800, 800) == Square
    ensures Classify(1920, 1080) == Landscape16x9 && Classify(1080, 1920) == Portrait9x16
    ensures Classify(1600, 1200) == Landscape4x3 && Classify(1200, 1600) == Portrait3x4
  {
    ExactMatchAgreesWithNearest(1200, 1200);
    ExactMatchAgreesWithNearest(800, 800);
    ExactMatchAgreesWithNearest(1920, 1080);
    ExactMatchAgreesWithNearest(1080, 1920);
    ExactMatchAgreesWithNearest(1600, 1200);
    ExactMatchAgreesWithNearest(1200, 1600);
  }

  /** The malformed sizes pinned by the plugin's tests. */
  lemma TestedMalformedSizes()
    ensures ConvertSizeToAspectRatio("invalid") == None && ConvertSizeToAspectRatio("1200") == None
  {
    WithoutXHasNoRatio("invalid");
    WithoutXHasNoRatio("1200");
  }

  /** A size with no `x` in either case has no ratio. */
  lemma WithoutXHasNoRatio(size: string)
    requires forall k :: 0 <= k < |size| ==> size[k] != 'x' && size[k] != 'X'
    ensures ConvertSizeToAspectRatio(size) == None
  {
    var low := ToLowerAscii(size);
    assert 'x' !in low;
    NoOccurrences(low, 'x');
  }

  lemma {:induction false} NoOccurrences(s: string, c: char)
    requires c !in s
    ensures Occurrences(s, c) == 0
  {
    if s != [] {
      assert forall y :: y in s[1..] ==> y in s;
      NoOccurrences(s[1..], c);
    }
  }

  /** Euclid's algorithm on the pairs pinned by the plugin's tests. */
  lemma TestedGcds()
    ensures Gcd(8, 12) == 4 && Gcd(10, 15) == 5 && Gcd(7, 13) == 1 && Gcd(100, 200) == 100
  {
  }

  /** A size string without exactly one `x` has no ratio. */
  lemma MalformedSizeHasNoRatio(size: string)
    requires Occurrences(ToLowerAscii(size), 'x') != 1
    ensures ConvertSizeToAspectRatio(size) == None
  {
  }

  lemma SocialCardDigits()
    ensures Decimal(1200) + ['x'] + Decimal(630) == "1200x630"
  {
    assert Decimal(12) == "12";
    assert Decimal(120) == "120";
    assert Decimal(63) == "63";
  }

  /** 1200x630 reduces to 40:21, falls outside every window and, being
      wider than tall, gets 16:9. */
  lemma SocialCardIsWide()
    ensures ConvertSizeToAspectRatio("1200x630") == Some(Landscape16x9)
  {
    SocialCardDigits();
    ConvertDecimalSize(1200, 630, 'x');
    ExactMatchAgreesWithNearest(1200, 630);
    assert NearestRatio(1200, 630) == Landscape16x9;
  }
}
