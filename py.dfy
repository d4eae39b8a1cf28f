/** Models of the handful of Python built-ins the scraper relies on: dynamically
    typed values and `str()`, `int()` on decimal strings, string ordering,
    `sorted` with a key (stable, and raising TypeError on incomparable keys),
    `str.join`/`str.split`, zero-padding format specs and `os.path.join` /
    `os.path.dirname` on POSIX paths. */
module Py {

  datatype Option<T> = None | Some(value: T)

  /** The exceptions the modelled code raises or lets escape. */
  datatype Error =
    | FetchError(status: int, url: string)
    | RuntimeError(message: string)
    | TypeError
    | ValueError
    | AttributeError
    | FileExistsError(path: string)
    | FileNotFoundError(path: string)
    | KeyError(key: string)
    | BadZipFile(path: string)
    | ImportError(name: string)
    | ParseError(path: string)
    | IsADirectoryError(path: string)

  datatype Result<T> = Ok(value: T) | Err(error: Error)

  /** The outcome of a call made for its effect: it returned, or it raised. */
  datatype Outcome = Pass | Fail(error: Error)

  /** A dynamically typed field: Python's `None`, a `str` or an `int`. */
  datatype Value = Null | Str(s: string) | Int(i: int)

  // ---------------------------------------------------------------------------
  // Decimal integers: str(int) and int(str)

  predicate IsDigit(c: char) { '0' <= c && c <= '9' }

  predicate AllDigits(s: string) { forall i :: 0 <= i < |s| ==> IsDigit(s[i]) }

  function DigitChar(d: nat): char
    requires d < 10
  {
    ['0', '1', '2', '3', '4', '5', '6', '7', '8', '9'][d]
  }

  function DigitValue(c: char): nat
    requires IsDigit(c)
  {
    (c as int - '0' as int) as nat
  }

  /** Decimal rendering of a natural number, most significant digit first. */
  function NatToString(n: nat): (r: string)
    ensures |r| > 0 && AllDigits(r)
  {
    if n < 10 then [DigitChar(n)] else NatToString(n / 10) + [DigitChar(n % 10)]
  }

  /** `str(n)` for an int. */
  function IntToString(n: int): string
  {
    if n < 0 then "-" + NatToString(-n) else NatToString(n)
  }

  function DigitsValue(s: string): nat
    requires AllDigits(s)
  {
    if s == [] then 0 else DigitsValue(s[..|s| - 1]) * 10 + DigitValue(s[|s| - 1])
  }

  /** `int(s)` for a string made of an optional sign and ASCII digits; any other
      string is a ValueError here (Python also accepts surrounding white space,
      underscores between digits and non-ASCII digits). */
  function ParseInt(s: string): Option<int>
  {
    if |s| > 0 && AllDigits(s) then Some(DigitsValue(s))
    else if |s| > 1 && (s[0] == '-' || s[0] == '+') && AllDigits(s[1..]) then
      var v: int := DigitsValue(s[1..]); if s[0] == '-' then Some(-v) else Some(v)
    else None
  }

  lemma DigitRoundTrip(d: nat)
    requires d < 10
    ensures IsDigit(DigitChar(d)) && DigitValue(DigitChar(d)) == d
  {
  }

  lemma {:induction false} NatRoundTrip(n: nat)
    ensures DigitsValue(NatToString(n)) == n
  {
    if n < 10 {
      DigitRoundTrip(n);
      assert NatToString(n)[..0] == [];
    } else {
      var s := NatToString(n);
      NatRoundTrip(n / 10);
      DigitRoundTrip(n % 10);
      assert s[..|s| - 1] == NatToString(n / 10);
    }
  }

  /** `int(str(n)) == n`: the decimal rendering of an int parses back to it. */
  lemma IntRoundTrip(n: int)
    ensures ParseInt(IntToString(n)) == Some(n)
  {
    if n < 0 {
      NatRoundTrip(-n);
      SignedParses(NatToString(-n), n);
      assert IntToString(n) == "-" + NatToString(-n);
    } else {
      NatRoundTrip(n);
    }
  }

  /** A '-' followed by a run of digits worth `-n` reads back as `n`. */
  lemma SignedParses(d: string, n: int)
    requires |d| > 0 && AllDigits(d) && DigitsValue(d) == -n
    ensures ParseInt("-" + d) == Some(n)
  {
    ParseSigned(d);
  }

  /** `str(v)` of a dynamic value. */
  function Show(v: Value): string
  {
    match v
    case Null => "None"
    case Str(s) => s
    case Int(i) => IntToString(i)
  }

  /** `int(v)`: an int is itself, a decimal string is parsed, None is a TypeError. */
  function ToInt(v: Value): (r: Result<int>)
    ensures v.Int? ==> r == Ok(v.i)
    ensures v.Null? ==> r == Err(TypeError)
  {
    match v
    case Null => Err(TypeError)
    case Int(i) => Ok(i)
    case Str(s) => if ParseInt(s).Some? then Ok(ParseInt(s).value) else Err(ValueError)
  }

  /** A number rendered by `str()` converts back with `int()`. */
  lemma ToIntShow(n: int)
    ensures ToInt(Str(Show(Int(n)))) == Ok(n)
  {
    IntRoundTrip(n);
  }

  /** Zero-padding format spec `{:0Nd}`: the sign comes first, then zeros up to
      total width `w`. */
  function ZeroPadInt(n: int, w: nat): (r: string)
  {
    if n < 0 then "-" + PadLeft(NatToString(-n), '0', if w > 0 then w - 1 else 0)
    else PadLeft(NatToString(n), '0', w)
  }

  function Repeat(c: char, k: nat): (r: string)
    ensures |r| == k && forall i :: 0 <= i < k ==> r[i] == c
  {
    if k == 0 then [] else [c] + Repeat(c, k - 1)
  }

  /** The right-alignment format spec `c>N`: left-pad with `c` to width `w`; longer strings stay as they are. */
  function PadLeft(s: string, c: char, w: nat): (r: string)
    ensures |s| >= w ==> r == s
    ensures |s| < w ==> |r| == w && r[w - |s|..] == s && forall i :: 0 <= i < w - |s| ==> r[i] == c
  {
    if |s| >= w then s else Repeat(c, w - |s|) + s
  }

  lemma LeadingZeros(k: nat, s: string)
    requires AllDigits(s)
    ensures AllDigits(Repeat('0', k) + s) && DigitsValue(Repeat('0', k) + s) == DigitsValue(s)
    decreases |s|
  {
    var z := Repeat('0', k);
    if s == [] {
      LeadingZerosOnly(k);
      assert z + s == z;
    } else {
      LeadingZeros(k, s[..|s| - 1]);
      assert (z + s)[..|z + s| - 1] == z + s[..|s| - 1];
    }
  }

  lemma {:induction false} LeadingZerosOnly(k: nat)
    ensures AllDigits(Repeat('0', k)) && DigitsValue(Repeat('0', k)) == 0
  {
    if k > 0 {
      LeadingZerosOnly(k - 1);
      var z := Repeat('0', k);
      assert z == [ '0' ] + Repeat('0', k - 1);
      assert z[..|z| - 1] == Repeat('0', k - 1) by {
        var zz := z[..|z| - 1];
        assert forall i :: 0 <= i < k - 1 ==> zz[i] == '0';
      }
    }
  }

  /** A zero-padded rendering is at least `w` long and still reads back as `n`. */
  lemma ZeroPadParses(n: int, w: nat)
    ensures |ZeroPadInt(n, w)| >= w
    ensures ParseInt(ZeroPadInt(n, w)) == Some(n)
  {
    if n < 0 {
      ZeroPadNegative(n, w);
    } else {
      ZeroPadNonNegative(n, w);
    }
  }

  lemma ZeroPadNonNegative(n: int, w: nat)
    requires n >= 0
    ensures |ZeroPadInt(n, w)| >= w
    ensures ParseInt(ZeroPadInt(n, w)) == Some(n)
  {
    var p := PadLeft(NatToString(n), '0', w);
    PaddedParses(n, w);
    assert ZeroPadInt(n, w) == p;
  }

  lemma ZeroPadNegative(n: int, w: nat)
    requires n < 0
    ensures |ZeroPadInt(n, w)| >= w
    ensures ParseInt(ZeroPadInt(n, w)) == Some(n)
  {
    var ww: nat := if w > 0 then w - 1 else 0;
    assert ZeroPadInt(n, w) == "-" + PadLeft(NatToString(-n), '0', ww);
    NegativePadParses(n, ww);
  }

  /** Zero-padding the decimal rendering of `m` to width `w` reads back as `m`. */
  lemma PaddedParses(m: nat, w: nat)
    ensures |PadLeft(NatToString(m), '0', w)| >= w
    ensures ParseInt(PadLeft(NatToString(m), '0', w)) == Some(m)
  {
    PaddedDigits(NatToString(m), w);
    NatRoundTrip(m);
  }

  /** With a '-' in front, the padded rendering of `-n` reads back as `n`. */
  lemma NegativePadParses(n: int, w: nat)
    requires n < 0
    ensures |PadLeft(NatToString(-n), '0', w)| >= w
    ensures ParseInt("-" + PadLeft(NatToString(-n), '0', w)) == Some(n)
  {
    NatRoundTrip(-n);
    SignedPadParses(NatToString(-n), n, w);
  }

  lemma SignedPadParses(d: string, n: int, w: nat)
    requires |d| > 0 && AllDigits(d) && DigitsValue(d) == -n
    ensures |PadLeft(d, '0', w)| >= w
    ensures ParseInt("-" + PadLeft(d, '0', w)) == Some(n)
  {
    PaddedDigits(d, w);
  }

  lemma PaddedDigits(d: string, w: nat)
    requires |d| > 0 && AllDigits(d)
    ensures ParseInt(PadLeft(d, '0', w)) == Some(DigitsValue(d) as int)
    ensures ParseInt("-" + PadLeft(d, '0', w)) == Some(-(DigitsValue(d) as int))
  {
    var p := PadLeft(d, '0', w);
    if |d| < w {
      LeadingZeros(w - |d|, d);
    }
    assert |p| > 0 && AllDigits(p) && DigitsValue(p) == DigitsValue(d);
    ParseSigned(p);
  }

  lemma ParseSigned(p: string)
    requires |p| > 0 && AllDigits(p)
    ensures ParseInt("-" + p) == Some(-(DigitsValue(p) as int))
  {
    var s := "-" + p;
    assert s[1..] == p;
    assert !AllDigits(s) by { assert !IsDigit(s[0]); }
  }

  // ---------------------------------------------------------------------------
  // Python ordering of strings and of sort keys

  /** Python's `a <= b` on str: code-point lexicographic order, a prefix first. */
  predicate StrLe(a: string, b: string)
  {
    a == [] || (b != [] && (a[0] < b[0] || (a[0] == b[0] && StrLe(a[1..], b[1..]))))
  }

  lemma {:induction false} StrLeTotal(a: string, b: string)
    ensures StrLe(a, b) || StrLe(b, a)
  {
    if a != [] && b != [] && a[0] == b[0] {
      StrLeTotal(a[1..], b[1..]);
    }
  }

  lemma {:induction false} StrLeAntisymmetric(a: string, b: string)
    requires StrLe(a, b) && StrLe(b, a)
    ensures a == b
  {
    if a != [] && b != [] {
      StrLeAntisymmetric(a[1..], b[1..]);
      assert a == [a[0]] + a[1..] && b == [b[0]] + b[1..];
    }
  }

  lemma {:induction false} StrLeTransitive(a: string, b: string, c: string)
    requires StrLe(a, b) && StrLe(b, c)
    ensures StrLe(a, c)
  {
    if a != [] && b != [] && c != [] && a[0] == b[0] && b[0] == c[0] {
      StrLeTransitive(a[1..], b[1..], c[1..]);
    }
  }

  /** `"10" < "2"`: volume and chapter numbers are strings and sort as strings. */
  lemma StringsAreNotNumbers()
    ensures StrLe("10", "2") && !StrLe("2", "10")
  {
    assert "10"[1..] == "0";
  }

  function Rank(v: Value): nat
  {
    match v
    case Null => 0
    case Int(_) => 1
    case Str(_) => 2
  }

  /** The order `sorted` uses on keys of one kind (ints numerically, strings
      lexicographically). Keys of different kinds never reach it: `SortBy`
      raises TypeError for them, as Python does; the rank only makes the
      relation total. */
  predicate KeyLe(a: Value, b: Value)
  {
    if Rank(a) != Rank(b) then Rank(a) < Rank(b)
    else match a
      case Null => true
      case Int(i) => i <= b.i
      case Str(s) => StrLe(s, b.s)
  }

  lemma KeyLeTotal(a: Value, b: Value)
    ensures KeyLe(a, b) || KeyLe(b, a)
  {
    if a.Str? && b.Str? { StrLeTotal(a.s, b.s); }
  }

  lemma KeyLeReflexive(a: Value)
    ensures KeyLe(a, a)
  {
    if a.Str? { StrLeReflexive(a.s); }
  }

  lemma {:induction false} StrLeReflexive(a: string)
    ensures StrLe(a, a)
  {
    if a != [] { StrLeReflexive(a[1..]); }
  }

  lemma KeyLeAntisymmetric(a: Value, b: Value)
    requires KeyLe(a, b) && KeyLe(b, a)
    ensures a == b
  {
    if a.Str? && b.Str? { StrLeAntisymmetric(a.s, b.s); }
  }

  lemma KeyLeTransitive(a: Value, b: Value, c: Value)
    requires KeyLe(a, b) && KeyLe(b, c)
    ensures KeyLe(a, c)
  {
    if a.Str? && b.Str? && c.Str? { StrLeTransitive(a.s, b.s, c.s); }
  }

  /** Python can compare every two of these keys: at most one key, or all ints,
      or all strings (None is not even comparable with None). */
  predicate Comparable(keys: seq<Value>)
  {
    |keys| <= 1 || (forall i :: 0 <= i < |keys| ==> keys[i].Int?) || (forall i :: 0 <= i < |keys| ==> keys[i].Str?)
  }

  function MapSeq<T, U>(f: T -> U, s: seq<T>): (r: seq<U>)
    ensures |r| == |s| && forall i {:trigger r[i]} :: 0 <= i < |s| ==> r[i] == f(s[i])
  {
    if s == [] then [] else [f(s[0])] + MapSeq(f, s[1..])
  }

  lemma MapSeqSnoc<T, U>(f: T -> U, s: seq<T>, i: nat)
    requires i < |s|
    ensures MapSeq(f, s[..i + 1]) == MapSeq(f, s[..i]) + [f(s[i])]
  {
    assert MapSeq(f, s[..i + 1]) == MapSeq(f, s[..i]) + [f(s[i])];
  }

  lemma MapSeqFront<T, U>(f: T -> U, s: seq<T>)
    requires s != []
    ensures MapSeq(f, s)[..|s| - 1] == MapSeq(f, s[..|s| - 1]) && MapSeq(f, s)[|s| - 1] == f(s[|s| - 1])
  {
  }

  lemma MapSeqAppend<T, U>(f: T -> U, a: seq<T>, b: seq<T>)
    ensures MapSeq(f, a + b) == MapSeq(f, a) + MapSeq(f, b)
  {
    assert MapSeq(f, a + b) == MapSeq(f, a) + MapSeq(f, b);
  }

  /** `list(map(f, s))` where `f` may raise: the first exception escapes. */
  function MapResult<T, U>(f: T -> Result<U>, s: seq<T>): (r: Result<seq<U>>)
    ensures r.Ok? <==> forall i :: 0 <= i < |s| ==> f(s[i]).Ok?
    ensures r.Ok? ==> |r.value| == |s| && forall i {:trigger r.value[i]} :: 0 <= i < |s| ==> r.value[i] == f(s[i]).value
    ensures r.Err? ==> exists i :: 0 <= i < |s| && f(s[i]) == Err(r.error) && forall j :: 0 <= j < i ==> f(s[j]).Ok?
  {
    if s == [] then Ok([])
    else match f(s[0])
      case Err(e) => Err(e)
      case Ok(x) =>
        match MapResult(f, s[1..])
        case Err(e) =>
          assert exists i :: 0 <= i < |s[1..]| && f(s[1..][i]) == Err(e) && forall j :: 0 <= j < i ==> f(s[1..][j]).Ok?;
          var i :| 0 <= i < |s[1..]| && f(s[1..][i]) == Err(e) && forall j :: 0 <= j < i ==> f(s[1..][j]).Ok?;
          assert f(s[i + 1]) == Err(e) && forall j :: 0 <= j < i + 1 ==> f(s[j]).Ok?;
          Err(e)
        case Ok(xs) => Ok([x] + xs)
  }

  /** A loop that maps one element at a time computes `MapResult`. */
  lemma MapResultSnoc<T, U>(f: T -> Result<U>, s: seq<T>, i: nat)
    requires i < |s| && MapResult(f, s[..i]).Ok? && f(s[i]).Ok?
    ensures MapResult(f, s[..i + 1]) == Ok(MapResult(f, s[..i]).value + [f(s[i]).value])
  {
    var pre := s[..i];
    var t := s[..i + 1];
    assert forall j :: 0 <= j < i ==> t[j] == pre[j];
    assert t[i] == s[i];
    assert forall j :: 0 <= j < |t| ==> f(t[j]).Ok?;
    var r := MapResult(f, t).value;
    var q := MapResult(f, pre).value + [f(s[i]).value];
    assert |r| == |q|;
    forall j | 0 <= j < |r|
      ensures r[j] == q[j]
    {
      if j < i {
        assert r[j] == f(t[j]).value == f(pre[j]).value;
      }
    }
    assert r == q;
  }

  /** ... and an element that raises ends it with that exception. */
  lemma {:induction false} MapResultStop<T, U>(f: T -> Result<U>, s: seq<T>, i: nat)
    requires i < |s| && MapResult(f, s[..i]).Ok? && f(s[i]).Err?
    ensures MapResult(f, s) == Err(f(s[i]).error)
  {
    if i > 0 {
      var pre := s[..i];
      assert pre[0] == s[0];
      assert pre[1..] == s[1..][..i - 1];
      MapResultStop(f, s[1..], i - 1);
    }
  }

  /** An exception in a prefix is the exception of the whole. */
  lemma MapResultPrefix<T, U>(f: T -> Result<U>, s: seq<T>, n: nat)
    requires n <= |s| && MapResult(f, s[..n]).Err?
    ensures MapResult(f, s) == MapResult(f, s[..n])
  {
    var pre := s[..n];
    var k :| 0 <= k < |pre| && f(pre[k]) == Err(MapResult(f, pre).error) && forall j :: 0 <= j < k ==> f(pre[j]).Ok?;
    assert s[..k] == pre[..k];
    assert forall j :: 0 <= j < k ==> f(pre[..k][j]).Ok?;
    MapResultStop(f, s, k);
  }

  /** The elements of `s` whose key is `k`, in their order in `s`. */
  function WithKey<T>(s: seq<T>, key: T -> Value, k: Value): seq<T>
  {
    if s == [] then [] else (if key(s[0]) == k then [s[0]] else []) + WithKey(s[1..], key, k)
  }

  predicate SortedBy<T>(s: seq<T>, key: T -> Value)
  {
    forall i, j :: 0 <= i < j < |s| ==> KeyLe(key(s[i]), key(s[j]))
  }

  /** Inserts `x` before the first element whose key is not below its own. */
  function Insert<T>(x: T, s: seq<T>, key: T -> Value): seq<T>
  {
    if s == [] then [x]
    else if KeyLe(key(x), key(s[0])) then [x] + s
    else [s[0]] + Insert(x, s[1..], key)
  }

  function InsertionSort<T>(s: seq<T>, key: T -> Value): seq<T>
  {
    if s == [] then [] else Insert(s[0], InsertionSort(s[1..], key), key)
  }

  /** `sorted(s, key=key)`. */
  function SortBy<T>(s: seq<T>, key: T -> Value): Result<seq<T>>
  {
    if Comparable(MapSeq(key, s)) then Ok(InsertionSort(s, key)) else Err(TypeError)
  }

  /** A sorted sequence stays sorted when an element no larger than all of it
      is put in front. */
  lemma ConsSorted<T>(a: T, t: seq<T>, key: T -> Value)
    requires SortedBy(t, key)
    requires forall k :: 0 <= k < |t| ==> KeyLe(key(a), key(t[k]))
    ensures SortedBy([a] + t, key)
  {
    var r := [a] + t;
    forall i, j | 0 <= i < j < |r| ensures KeyLe(key(r[i]), key(r[j])) {
      if i == 0 { assert r[j] == t[j - 1]; } else { assert r[i] == t[i - 1] && r[j] == t[j - 1]; }
    }
  }

  /** A lower bound of `x` and of `s` is a lower bound of the insertion. */
  lemma {:induction false} InsertBounded<T>(b: Value, x: T, s: seq<T>, key: T -> Value)
    requires KeyLe(b, key(x))
    requires forall k :: 0 <= k < |s| ==> KeyLe(b, key(s[k]))
    ensures forall k :: 0 <= k < |Insert(x, s, key)| ==> KeyLe(b, key(Insert(x, s, key)[k]))
  {
    if s != [] && !KeyLe(key(x), key(s[0])) {
      InsertBounded(b, x, s[1..], key);
      var t := Insert(x, s[1..], key);
      assert Insert(x, s, key) == [s[0]] + t;
      forall k | 0 <= k < |[s[0]] + t| ensures KeyLe(b, key(([s[0]] + t)[k])) {
        if k > 0 { assert ([s[0]] + t)[k] == t[k - 1]; }
      }
    }
  }

  lemma {:induction false} InsertSorted<T>(x: T, s: seq<T>, key: T -> Value)
    requires SortedBy(s, key)
    ensures SortedBy(Insert(x, s, key), key)
    ensures multiset(Insert(x, s, key)) == multiset(s) + multiset{x}
  {
    if s != [] {
      if KeyLe(key(x), key(s[0])) {
        forall k | 0 <= k < |s| ensures KeyLe(key(x), key(s[k])) {
          if k > 0 { KeyLeTransitive(key(x), key(s[0]), key(s[k])); }
        }
        ConsSorted(x, s, key);
      } else {
        InsertSorted(x, s[1..], key);
        KeyLeTotal(key(x), key(s[0]));
        forall k | 0 <= k < |s[1..]| ensures KeyLe(key(s[0]), key(s[1..][k])) {
          assert s[1..][k] == s[k + 1];
        }
        InsertBounded(key(s[0]), x, s[1..], key);
        ConsSorted(s[0], Insert(x, s[1..], key), key);
        assert s == [s[0]] + s[1..];
      }
    }
  }

  lemma {:induction false} InsertionSortCorrect<T>(s: seq<T>, key: T -> Value)
    ensures SortedBy(InsertionSort(s, key), key)
    ensures multiset(InsertionSort(s, key)) == multiset(s)
  {
    if s != [] {
      InsertionSortCorrect(s[1..], key);
      InsertSorted(s[0], InsertionSort(s[1..], key), key);
      assert s == [s[0]] + s[1..];
    }
  }

  lemma WithKeyCons<T>(a: T, t: seq<T>, key: T -> Value, k: Value)
    ensures WithKey([a] + t, key, k) == (if key(a) == k then [a] else []) + WithKey(t, key, k)
  {
    assert ([a] + t)[1..] == t;
  }

  lemma {:induction false} WithKeyAppend<T>(a: seq<T>, b: seq<T>, key: T -> Value, k: Value)
    ensures WithKey(a + b, key, k) == WithKey(a, key, k) + WithKey(b, key, k)
  {
    if a == [] {
      assert a + b == b;
    } else {
      WithKeyAppend(a[1..], b, key, k);
      assert a == [a[0]] + a[1..];
      assert a + b == [a[0]] + (a[1..] + b);
      WithKeyCons(a[0], a[1..] + b, key, k);
      WithKeyCons(a[0], a[1..], key, k);
    }
  }

  lemma {:induction false} InsertStable<T>(x: T, s: seq<T>, key: T -> Value, k: Value)
    requires SortedBy(s, key)
    ensures WithKey(Insert(x, s, key), key, k) == (if key(x) == k then [x] else []) + WithKey(s, key, k)
  {
    if s == [] {
      assert Insert(x, s, key) == [x] + s;
      WithKeyCons(x, s, key, k);
    } else if KeyLe(key(x), key(s[0])) {
      WithKeyCons(x, s, key, k);
    } else {
      var t := Insert(x, s[1..], key);
      assert Insert(x, s, key) == [s[0]] + t;
      InsertStable(x, s[1..], key, k);
      WithKeyCons(s[0], t, key, k);
      assert s == [s[0]] + s[1..];
      WithKeyCons(s[0], s[1..], key, k);
      var w := WithKey(s[1..], key, k);
      if key(x) == k {
        KeyLeReflexive(key(x));
        assert key(s[0]) != k;
        assert WithKey(Insert(x, s, key), key, k) == [x] + w;
      } else {
        assert WithKey(t, key, k) == w;
      }
    }
  }

  /** Insertion sort is stable: the elements sharing a key keep their relative order. */
  lemma {:induction false} InsertionSortStable<T>(s: seq<T>, key: T -> Value, k: Value)
    ensures WithKey(InsertionSort(s, key), key, k) == WithKey(s, key, k)
  {
    if s != [] {
      InsertionSortStable(s[1..], key, k);
      InsertionSortCorrect(s[1..], key);
      InsertStable(s[0], InsertionSort(s[1..], key), key, k);
    }
  }

  /** What `sorted(s, key=key)` promises: it raises TypeError exactly when two
      keys are incomparable; otherwise the result is ordered by key, is a
      permutation of `s`, and keeps elements with equal keys in input order. */
  lemma SortByCorrect<T>(s: seq<T>, key: T -> Value)
    ensures SortBy(s, key).Ok? <==> Comparable(MapSeq(key, s))
    ensures SortBy(s, key).Err? ==> SortBy(s, key).error == TypeError
    ensures SortBy(s, key).Ok? ==>
      var r := SortBy(s, key).value;
      SortedBy(r, key) && multiset(r) == multiset(s) &&
      forall k :: WithKey(r, key, k) == WithKey(s, key, k)
  {
    InsertionSortCorrect(s, key);
    forall k ensures WithKey(InsertionSort(s, key), key, k) == WithKey(s, key, k) {
      InsertionSortStable(s, key, k);
    }
  }

  /** Sorting commutes with a map that preserves the key. */
  lemma {:induction false} InsertMap<T, U>(x: T, s: seq<T>, f: T -> U, key1: T -> Value, key2: U -> Value)
    requires forall y :: key2(f(y)) == key1(y)
    ensures MapSeq(f, Insert(x, s, key1)) == Insert(f(x), MapSeq(f, s), key2)
  {
    if s != [] && !KeyLe(key1(x), key1(s[0])) {
      InsertMap(x, s[1..], f, key1, key2);
      assert MapSeq(f, s)[1..] == MapSeq(f, s[1..]);
    } else if s != [] {
      assert MapSeq(f, [x] + s) == [f(x)] + MapSeq(f, s);
    }
  }

  lemma {:induction false} SortMap<T, U>(s: seq<T>, f: T -> U, key1: T -> Value, key2: U -> Value)
    requires forall y :: key2(f(y)) == key1(y)
    ensures MapSeq(f, InsertionSort(s, key1)) == InsertionSort(MapSeq(f, s), key2)
    ensures MapSeq(key2, MapSeq(f, s)) == MapSeq(key1, s)
  {
    if s != [] {
      SortMap(s[1..], f, key1, key2);
      InsertMap(s[0], InsertionSort(s[1..], key1), f, key1, key2);
      assert MapSeq(f, s)[1..] == MapSeq(f, s[1..]);
    }
  }

  /** The distinct elements of `s`, in the order they first occur. */
  function FirstOccurrences<T(==)>(s: seq<T>): seq<T>
  {
    if s == [] then []
    else
      var pre := FirstOccurrences(s[..|s| - 1]);
      if s[|s| - 1] in pre then pre else pre + [s[|s| - 1]]
  }

  lemma {:induction false} FirstOccurrencesMembers<T>(s: seq<T>)
    ensures forall x :: x in FirstOccurrences(s) <==> x in s
    ensures forall i, j :: 0 <= i < j < |FirstOccurrences(s)| ==> FirstOccurrences(s)[i] != FirstOccurrences(s)[j]
  {
    if s != [] {
      var pre := s[..|s| - 1];
      FirstOccurrencesMembers(pre);
      assert s == pre + [s[|s| - 1]];
    }
  }

  lemma FirstOccurrencesSnoc<T>(s: seq<T>, x: T)
    ensures FirstOccurrences(s + [x]) == if x in FirstOccurrences(s) then FirstOccurrences(s) else FirstOccurrences(s) + [x]
  {
    assert (s + [x])[..|s|] == s;
  }

  // ---------------------------------------------------------------------------
  // str.join, str.split, prefixes

  /** `sep.join(parts)`. */
  function Join(sep: string, parts: seq<string>): string
  {
    if parts == [] then "" else if |parts| == 1 then parts[0] else parts[0] + sep + Join(sep, parts[1..])
  }

  /** `s.split(c)` for a one-character separator. */
  function Split(s: string, c: char): (r: seq<string>)
    ensures |r| > 0
  {
    if s == [] then [""]
    else if s[0] == c then [""] + Split(s[1..], c)
    else var rest := Split(s[1..], c); [[s[0]] + rest[0]] + rest[1..]
  }

  /** Gluing a prefix onto the first part glues it onto the joined string. */
  lemma JoinPrefixHead(sep: string, x: string, parts: seq<string>)
    requires |parts| > 0
    ensures Join(sep, [x + parts[0]] + parts[1..]) == x + Join(sep, parts)
  {
    var q := [x + parts[0]] + parts[1..];
    assert q[1..] == parts[1..];
  }

  /** A character other than the separator, glued onto the first part, keeps
      every part free of the separator. */
  lemma PrefixHeadKeepsSep(a: char, c: char, rest: seq<string>)
    requires a != c && |rest| > 0
    requires forall i :: 0 <= i < |rest| ==> c !in rest[i]
    ensures forall i :: 0 <= i < |[[a] + rest[0]] + rest[1..]| ==> c !in ([[a] + rest[0]] + rest[1..])[i]
  {
    var q := [[a] + rest[0]] + rest[1..];
    forall i | 0 <= i < |q| ensures c !in q[i] {
      if i > 0 { assert q[i] == rest[i]; }
    }
  }

  /** Splitting and re-joining gives the string back; no part holds the separator. */
  lemma {:induction false} SplitJoin(s: string, c: char)
    ensures Join([c], Split(s, c)) == s
    ensures forall i :: 0 <= i < |Split(s, c)| ==> c !in Split(s, c)[i]
  {
    if s != [] {
      SplitJoin(s[1..], c);
      var rest := Split(s[1..], c);
      if s[0] == c {
        assert s == [c] + s[1..];
      } else {
        JoinPrefixHead([c], [s[0]], rest);
        PrefixHeadKeepsSep(s[0], c, rest);
        assert s == [s[0]] + s[1..];
      }
    }
  }

  /** A non-empty sequence is its front followed by its last element. */
  lemma SplitLast<T>(s: seq<T>)
    requires s != []
    ensures s == s[..|s| - 1] + [s[|s| - 1]]
  {
  }

  /** Taking one more element of a sequence. */
  lemma TakeSnoc<T>(s: seq<T>, j: nat)
    requires j < |s|
    ensures s[..j + 1] == s[..j] + [s[j]] && s[..j + 1][..j] == s[..j]
  {
  }

  /** `s.find(c)`: the first position of `c` in `s`, or -1. */
  function FirstIndex(s: string, c: char): (r: int)
    ensures -1 <= r < |s|
    ensures r >= 0 ==> s[r] == c
    ensures forall i :: 0 <= i < |s| && (r < 0 || i < r) ==> s[i] != c
  {
    if s == [] then -1
    else if s[0] == c then 0
    else var k := FirstIndex(s[1..], c); if k < 0 then -1 else k + 1
  }

  predicate StartsWith(s: string, p: string) { |p| <= |s| && s[..|p|] == p }

  predicate EndsWith(s: string, p: string) { |p| <= |s| && s[|s| - |p|..] == p }

  /** A suffix of a suffix is a suffix. */
  lemma EndsWithTrans(a: string, b: string, p: string)
    requires EndsWith(a, b) && EndsWith(b, p)
    ensures EndsWith(a, p)
  {
    assert a[|a| - |p|..] == a[|a| - |b|..][|b| - |p|..];
  }

  // ---------------------------------------------------------------------------
  // Library data: xml.etree elements, zip entries, and the files on disk

  type Bytes = seq<bv8>

  /** An `xml.etree.ElementTree.Element`: tag, attributes, text and children.
      Attribute values are whatever the program stored with `set`; only
      strings can be written out. */
  datatype Element = Element(tag: string, attrs: map<string, Value>, text: Option<string>, children: seq<Element>)

  /** The children of an element that carry `tag`, in document order (`findall`). */
  function Filter(es: seq<Element>, tag: string): (r: seq<Element>)
    ensures forall i {:trigger r[i]} :: 0 <= i < |r| ==> r[i].tag == tag
  {
    if es == [] then []
    else if es[0].tag == tag then [es[0]] + Filter(es[1..], tag)
    else Filter(es[1..], tag)
  }

  function FindAll(e: Element, tag: string): seq<Element>
  {
    Filter(e.children, tag)
  }

  /** The first child carrying `tag`, or None (`find`). */
  function Find(e: Element, tag: string): (r: Option<Element>)
    ensures r.Some? <==> |FindAll(e, tag)| > 0
    ensures r.Some? ==> r.value == FindAll(e, tag)[0]
  {
    var all := FindAll(e, tag);
    if |all| > 0 then Some(all[0]) else None
  }

  lemma {:induction false} FilterAll(es: seq<Element>, tag: string)
    requires forall i :: 0 <= i < |es| ==> es[i].tag == tag
    ensures Filter(es, tag) == es
  {
    if es != [] {
      FilterAll(es[1..], tag);
    }
  }

  lemma {:induction false} FilterAppend(a: seq<Element>, b: seq<Element>, tag: string)
    ensures Filter(a + b, tag) == Filter(a, tag) + Filter(b, tag)
  {
    if a == [] {
      assert a + b == b;
    } else {
      assert (a + b)[1..] == a[1..] + b;
      FilterAppend(a[1..], b, tag);
    }
  }

  /** `str(e.get(name))`: the attribute's value, or "None" when it is absent. */
  function Attr(e: Element, name: string): string
  {
    if name in e.attrs then Show(e.attrs[name]) else "None"
  }

  /** `str(e.text)` on a parsed element: the parser gives no text (None) for
      an element whose text was empty. */
  function TextOf(e: Element): (r: string)
    ensures e.text.Some? && e.text.value != "" ==> r == e.text.value
  {
    if e.text == None || e.text == Some("") then "None" else e.text.value
  }

  /** Every attribute value in the tree is a string, so the serialiser accepts it. */
  predicate Serializable(e: Element)
    decreases e
  {
    (forall k :: k in e.attrs ==> e.attrs[k].Str?) &&
    forall i :: 0 <= i < |e.children| ==> Serializable(e.children[i])
  }

  /** One member of a zip archive, as `writestr(name, data)` stores it. */
  datatype Entry = Entry(name: string, data: Bytes)

  /** What a descriptor or archive file holds: a parsed XML tree, a readable
      zip archive, a zip archive still open for writing (its entries are on
      disk but its central directory is not, so no reader accepts it until
      the writer is closed), or bytes that neither parser accepts (a write
      that raised half-way, or a corrupt download). */
  datatype File = Xml(root: Element) | Zip(entries: seq<Entry>) | Unclosed(written: seq<Entry>) | Garbled

  /** No member after `i` is stored under the name of member `i`. */
  predicate LastNamed(es: seq<Entry>, i: nat)
    requires i < |es|
  {
    forall j :: i < j < |es| ==> es[j].name != es[i].name
  }

  /** `ZipFile.read(name)`: the name table of a zip archive keeps, for each
      name, the last member stored under it; a name not in the table raises
      KeyError. */
  function ReadEntry(es: seq<Entry>, name: string): (r: Result<Bytes>)
    ensures r.Ok? <==> exists i :: 0 <= i < |es| && es[i].name == name
    ensures r.Err? ==> r.error == KeyError(name)
    ensures r.Ok? ==> exists i :: 0 <= i < |es| && es[i].name == name && r.value == es[i].data && LastNamed(es, i)
  {
    if es == [] then Err(KeyError(name))
    else if es[|es| - 1].name == name then Ok(es[|es| - 1].data)
    else
      var init := es[..|es| - 1];
      var r := ReadEntry(init, name);
      assert forall i :: 0 <= i < |init| ==> init[i] == es[i];
      r
  }

  /** When no two members share a name, reading a member's name gives its
      own bytes. */
  lemma ReadDistinct(es: seq<Entry>, i: nat)
    requires i < |es| && forall j, k :: 0 <= j < k < |es| ==> es[j].name != es[k].name
    ensures ReadEntry(es, es[i].name) == Ok(es[i].data)
  {
    var r := ReadEntry(es, es[i].name);
    var k :| 0 <= k < |es| && es[k].name == es[i].name && r.value == es[k].data && LastNamed(es, k);
    assert k == i;
  }

  /** The output files of the program (descriptors and archives), by path. */
  class Disk {
    var files: map<string, File>

    constructor (files: map<string, File>)
      ensures this.files == files
    {
      this.files := files;
    }

    method Write(path: string, f: File)
      modifies this
      ensures files == old(files)[path := f]
    {
      files := files[path := f];
    }

    method Remove(path: string)
      modifies this
      ensures files == old(files) - {path}
    {
      files := files - {path};
    }
  }

  /** `ElementTree(root).write(path)`: a tree holding a non-string attribute
      makes the serialiser raise TypeError after the file has been opened,
      leaving a partial document behind. */
  function WriteXml(files: map<string, File>, path: string, root: Element): (r: (Outcome, map<string, File>))
    ensures r.0 == Pass <==> Serializable(root)
    ensures r.0 == Pass ==> r.1 == files[path := Xml(root)]
    ensures r.0 != Pass ==> r.0 == Fail(TypeError) && r.1 == files[path := Garbled]
  {
    if Serializable(root) then (Pass, files[path := Xml(root)])
    else (Fail(TypeError), files[path := Garbled])
  }

  /** `ElementTree.parse(path).getroot()`. */
  function ParseXml(files: map<string, File>, path: string): (r: Result<Element>)
    ensures r.Ok? <==> path in files && files[path].Xml?
    ensures path !in files ==> r == Err(FileNotFoundError(path))
    ensures path in files && !files[path].Xml? ==> r == Err(ParseError(path))
  {
    if path !in files then Err(FileNotFoundError(path))
    else match files[path]
      case Xml(root) => Ok(root)
      case _ => Err(ParseError(path))
  }

  // ---------------------------------------------------------------------------
  // os.path on POSIX

  const Sep: char := '/'

  /** `os.path.join(a, b)`. */
  function PathJoin(a: string, b: string): (r: string)
    ensures StartsWith(b, "/") ==> r == b
    ensures !StartsWith(b, "/") ==> EndsWith(r, b)
  {
    if StartsWith(b, "/") then b
    else if a == "" || EndsWith(a, "/") then a + b
    else a + "/" + b
  }

  function LastIndex(s: string, c: char): (r: int)
    ensures -1 <= r < |s|
    ensures r >= 0 ==> s[r] == c
    ensures forall i :: r < i < |s| ==> s[i] != c
  {
    if s == [] then -1 else if s[|s| - 1] == c then |s| - 1 else LastIndex(s[..|s| - 1], c)
  }

  function RStrip(s: string, c: char): (r: string)
    ensures |r| <= |s| && r == s[..|r|]
  {
    if s != [] && s[|s| - 1] == c then RStrip(s[..|s| - 1], c) else s
  }

  /** `os.path.dirname(p)`: everything before the last slash, trailing slashes
      removed unless the head is only slashes. */
  function Dirname(p: string): string
  {
    var head := p[..LastIndex(p, '/') + 1];
    if head != [] && RStrip(head, '/') != [] then RStrip(head, '/') else head
  }
}
