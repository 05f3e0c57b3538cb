/** The few Python built-ins that data_handler.py leans on: the values found in
    an unpickled search record, `str()` of such a value, `str.endswith` and
    `str.rfind`. */
module PyValues {

  datatype Option<T> = None | Some(value: T)

  /** The exception data_handler.py can raise on a well-formed list of papers. */
  datatype Error =
    /** `.get` was called on a "bib" value that is not a dict. */
    | AttributeError

  /** A computation that either returns a value or raises. */
  datatype Result<T> = Success(value: T) | Failure(error: Error)

  /** A Python object that can stand as a field value of a record. Any
      other object without a `.get` method (a list, a float, ...) is an
      `Other` carrying the text that `str()` gives for it. */
  datatype Value =
    | Str(s: string)
    | Int(i: int)
    | Bool(b: bool)
    | NoneValue
    | Other(shown: string)

  /** `str(v)`, which is also what an f-string puts in place of `{v}`. */
  function Render(v: Value): string
  {
    match v
    case Str(s) => s
    case Int(i) => if i < 0 then "-" + NatToDecimal(-i) else NatToDecimal(i)
    case Bool(b) => if b then "True" else "False"
    case NoneValue => "None"
    case Other(shown) => shown
  }

  /** What `str()` shows: a string as itself, an int as its sign and decimal
      digits (which read back as its magnitude), a bool as True or False,
      None as None. */
  lemma RenderShows(v: Value)
    ensures v.Str? ==> Render(v) == v.s
    ensures v.Int? && v.i >= 0 ==> AllDigits(Render(v)) && DecimalValue(Render(v)) == v.i
    ensures v.Int? && v.i < 0 ==>
      var r := Render(v);
      r != [] && r[0] == '-' && AllDigits(r[1..]) && DecimalValue(r[1..]) == -v.i
    ensures v.Bool? ==> Render(v) == (if v.b then "True" else "False")
    ensures v.NoneValue? ==> Render(v) == "None"
  {
    if v.Int? && v.i < 0 {
      assert Render(v)[1..] == NatToDecimal(-v.i);
    }
  }

  predicate IsDigit(c: char)
  {
    '0' <= c <= '9'
  }

  predicate AllDigits(s: string)
  {
    forall i :: 0 <= i < |s| ==> IsDigit(s[i])
  }

  /** The number a string of decimal digits denotes. */
  function DecimalValue(s: string): nat
    requires AllDigits(s)
  {
    if s == [] then 0
    else DecimalValue(s[..|s| - 1]) * 10 + (s[|s| - 1] as int - '0' as int)
  }

  /** The decimal digits Python prints for a non-negative int: no leading
      zero, and reading them back gives the number. */
  function NatToDecimal(n: nat): (r: string)
    ensures r != [] && AllDigits(r)
    ensures r[0] == '0' ==> r == "0"
    ensures DecimalValue(r) == n
  {
    var digit := ('0' as int + n % 10) as char;
    if n < 10 then [digit]
    else
      var prefix := NatToDecimal(n / 10);
      assert (prefix + [digit])[..|prefix|] == prefix;
      prefix + [digit]
  }

  /** `s.endswith(suffix)`. */
  predicate EndsWith(s: string, suffix: string)
  {
    |suffix| <= |s| && s[|s| - |suffix|..] == suffix
  }

  /** `s` ends with `suffix` exactly when it is some text followed by it. */
  lemma EndsWithSplit(s: string, suffix: string)
    ensures EndsWith(s, suffix) <==> exists prefix :: prefix + suffix == s
  {
    if EndsWith(s, suffix) {
      assert s[..|s| - |suffix|] + suffix == s;
    }
  }

  /** `s.rfind(c)`: the index of the last `c` in `s`, or -1 when there is none. */
  function RFind(s: string, c: char): (i: int)
    ensures -1 <= i < |s|
    ensures i >= 0 ==> s[i] == c
    ensures forall j :: i < j < |s| ==> s[j] != c
  {
    if s == [] then -1
    else if s[|s| - 1] == c then |s| - 1
    else RFind(s[..|s| - 1], c)
  }

  /** The postcondition of RFind determines it: the last occurrence is unique. */
  lemma RFindIsLast(s: string, c: char, k: nat)
    requires k < |s| && s[k] == c
    requires forall j :: k < j < |s| ==> s[j] != c
    ensures RFind(s, c) == k
  {
  }

  /** The concatenation f(s[0]) + ... + f(s[n - 1]): the value of a variable
      that a loop over `s` grows with `+=`, after `n` rounds. */
  function ConcatMap<T, U>(f: T -> seq<U>, s: seq<T>, n: nat): seq<U>
    requires n <= |s|
  {
    if n == 0 then [] else ConcatMap(f, s, n - 1) + f(s[n - 1])
  }

  lemma {:induction false} ConcatMapPrefix<T, U>(f: T -> seq<U>, a: seq<T>, b: seq<T>, n: nat)
    requires n <= |a|
    ensures ConcatMap(f, a + b, n) == ConcatMap(f, a, n)
  {
    if n > 0 {
      ConcatMapPrefix(f, a, b, n - 1);
    }
  }

  /** Concatenating over two sequences laid end to end. */
  lemma {:induction false} ConcatMapAppend<T, U>(f: T -> seq<U>, a: seq<T>, b: seq<T>, n: nat)
    requires n <= |b|
    ensures ConcatMap(f, a + b, |a| + n) == ConcatMap(f, a, |a|) + ConcatMap(f, b, n)
  {
    if n == 0 {
      ConcatMapPrefix(f, a, b, |a|);
    } else {
      ConcatMapAppend(f, a, b, n - 1);
      assert (a + b)[|a| + n - 1] == b[n - 1];
    }
  }

  /** One more round of the loop adds one more piece. */
  lemma ConcatMapSnoc<T, U>(f: T -> seq<U>, a: seq<T>, x: T)
    ensures ConcatMap(f, a + [x], |a| + 1) == ConcatMap(f, a, |a|) + f(x)
  {
    ConcatMapPrefix(f, a, [x], |a|);
    assert (a + [x])[|a|] == x;
  }

  /** The elements of s[..n] that `keep` accepts, in order. */
  function Filter<T>(keep: T -> bool, s: seq<T>, n: nat): (r: seq<T>)
    requires n <= |s|
    ensures |r| <= n
    ensures forall i :: 0 <= i < |r| ==> keep(r[i])
  {
    if n == 0 then []
    else Filter(keep, s, n - 1) + (if keep(s[n - 1]) then [s[n - 1]] else [])
  }

  lemma {:induction false} FilterMembers<T>(keep: T -> bool, s: seq<T>, n: nat)
    requires n <= |s|
    ensures forall x :: x in Filter(keep, s, n) <==> x in s[..n] && keep(x)
  {
    if n > 0 {
      FilterMembers(keep, s, n - 1);
      assert s[..n] == s[..n - 1] + [s[n - 1]];
    }
  }

  /** Leaving out the elements that contribute nothing does not change the
      concatenation. */
  lemma {:induction false} ConcatMapFilter<T, U>(f: T -> seq<U>, keep: T -> bool, s: seq<T>, n: nat)
    requires n <= |s|
    requires forall x :: !keep(x) ==> f(x) == []
    ensures ConcatMap(f, s, n) == ConcatMap(f, Filter(keep, s, n), |Filter(keep, s, n)|)
  {
    if n > 0 {
      ConcatMapFilter(f, keep, s, n - 1);
      if keep(s[n - 1]) {
        ConcatMapSnoc(f, Filter(keep, s, n - 1), s[n - 1]);
      } else {
        assert Filter(keep, s, n) == Filter(keep, s, n - 1);
        assert f(s[n - 1]) == [];
      }
    }
  }

  /** `[f(x) for x in s]`. */
  function Map<T, U>(f: T -> U, s: seq<T>): (r: seq<U>)
  {
    seq(|s|, i requires 0 <= i < |s| => f(s[i]))
  }

  /** Mapping two sequences laid end to end maps each of them. */
  lemma MapAppend<T, U>(f: T -> U, a: seq<T>, b: seq<T>)
    ensures Map(f, a + b) == Map(f, a) + Map(f, b)
  {
    forall i | 0 <= i < |a| + |b|
      ensures Map(f, a + b)[i] == (Map(f, a) + Map(f, b))[i]
    {
      if i >= |a| {
        assert (a + b)[i] == b[i - |a|];
      }
    }
  }
}
