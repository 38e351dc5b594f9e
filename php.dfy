/**
 * The PHP values the userbot core reads and writes, and the array library
 * functions it relies on (array_combine, $a[$k] = $v, array_unique,
 * array_search, unset, (int) casts and integer-to-string conversion),
 * written out explicitly.
 */
module Php {

  datatype Option<+T> = None | Some(value: T)

  datatype Result<+T, +E> = Success(value: T) | Failure(error: E)

  /**
   * A PHP value as json_decode($body, true) produces it, as a payload entry,
   * or (File) the CURLFile object that Curl::attachFile returns.
   * JSON objects become Dict, JSON arrays become List.
   */
  datatype Value =
    | Null
    | Bool(b: bool)
    | Int(i: int)
    | Str(s: string)
    | List(items: seq<Value>)
    | Dict(fields: map<string, Value>)
    | File(path: string)

  /** What json_decode leaves behind: a value, or an error that json_last_error() reports. */
  datatype Decoded = BadJson | Json(value: Value)

  /** $v[$key] on a value that may not be an array; Null when the key is absent. */
  function Get(v: Value, key: string): (r: Value)
    ensures r != Null ==> v.Dict? && key in v.fields && r == v.fields[key]
    ensures v.Dict? && key in v.fields ==> r == v.fields[key]
  {
    if v.Dict? && key in v.fields then v.fields[key] else Null
  }

  /** isset($v[$key]): present and not null. */
  predicate IsSet(v: Value, key: string)
  {
    Get(v, key) != Null
  }

  // ---------------------------------------------------------------------
  // Ordered PHP arrays with string keys, as sequences of key/value pairs.
  // ---------------------------------------------------------------------

  function KeysOf<V>(a: seq<(string, V)>): (ks: seq<string>)
    ensures |ks| == |a|
    ensures forall i :: 0 <= i < |a| ==> ks[i] == a[i].0
  {
    if |a| == 0 then [] else KeysOf(a[..|a| - 1]) + [a[|a| - 1].0]
  }

  predicate NoDuplicates<T(==)>(s: seq<T>)
  {
    forall i, j :: 0 <= i < j < |s| ==> s[i] != s[j]
  }

  /** The value stored under key k, if any. */
  function Lookup<V>(a: seq<(string, V)>, k: string): (r: Option<V>)
    ensures r.None? <==> k !in KeysOf(a)
  {
    if |a| == 0 then None
    else if a[|a| - 1].0 == k then Some(a[|a| - 1].1)
    else Lookup(a[..|a| - 1], k)
  }

  /** $a[$k] = $v: an existing key keeps its position and gets the new value; a new key is appended. */
  function Put<V>(a: seq<(string, V)>, k: string, v: V): (r: seq<(string, V)>)
    ensures KeysOf(r) == if k in KeysOf(a) then KeysOf(a) else KeysOf(a) + [k]
    ensures Lookup(r, k) == Some(v)
    ensures forall k' :: k' != k ==> Lookup(r, k') == Lookup(a, k')
  {
    if |a| == 0 then [(k, v)]
    else if a[|a| - 1].0 == k then a[..|a| - 1] + [(k, v)]
    else if k !in KeysOf(a[..|a| - 1]) then
      assert KeysOf(a) == KeysOf(a[..|a| - 1]) + [a[|a| - 1].0];
      var r := a + [(k, v)];
      assert r[..|r| - 1] == a;
      r
    else
      var front := a[..|a| - 1];
      var r := Put(front, k, v) + [a[|a| - 1]];
      assert r[..|r| - 1] == Put(front, k, v);
      assert KeysOf(a) == KeysOf(front) + [a[|a| - 1].0];
      assert KeysOf(r) == KeysOf(Put(front, k, v)) + [a[|a| - 1].0];
      r
  }

  /** array_combine($keys, $values) with equal lengths: later duplicates overwrite earlier values. */
  function Combine<V>(ks: seq<string>, vs: seq<V>): (r: seq<(string, V)>)
    requires |ks| == |vs|
  {
    if |ks| == 0 then []
    else Put(Combine(ks[..|ks| - 1], vs[..|vs| - 1]), ks[|ks| - 1], vs[|vs| - 1])
  }

  /** Index of the last occurrence of x in s. */
  function LastIndexOf<T(==)>(s: seq<T>, x: T): (j: nat)
    requires x in s
    ensures j < |s| && s[j] == x
    ensures forall i :: j < i < |s| ==> s[i] != x
  {
    if s[|s| - 1] == x then |s| - 1 else LastIndexOf(s[..|s| - 1], x)
  }

  /** array_combine keys the result by the first occurrences of the keys, in order. */
  lemma {:induction false} CombineKeys<V>(ks: seq<string>, vs: seq<V>)
    requires |ks| == |vs|
    ensures KeysOf(Combine(ks, vs)) == Dedup(ks)
  {
    if |ks| > 0 {
      CombineKeys(ks[..|ks| - 1], vs[..|vs| - 1]);
    }
  }

  /** The value kept for a key is the one paired with its last occurrence: the later value wins. */
  lemma {:induction false} CombineLookup<V>(ks: seq<string>, vs: seq<V>, k: string)
    requires |ks| == |vs|
    ensures Lookup(Combine(ks, vs), k) == if k in ks then Some(vs[LastIndexOf(ks, k)]) else None
  {
    if |ks| > 0 {
      var n := |ks| - 1;
      CombineLookup(ks[..n], vs[..n], k);
      if ks[n] != k && k in ks {
        assert k in ks[..n] by {
          var j := LastIndexOf(ks, k);
          assert j < n && ks[..n][j] == k;
        }
        assert LastIndexOf(ks, k) == LastIndexOf(ks[..n], k);
      }
      if ks[n] != k && k !in ks {
        assert k !in ks[..n];
      }
    }
  }

  // ---------------------------------------------------------------------
  // Lists: array_unique, array_search, unset.
  // ---------------------------------------------------------------------

  /** array_unique: drops every element that occurred earlier, keeping first occurrences in order. */
  function Dedup<T(==)>(s: seq<T>): (d: seq<T>)
  {
    if |s| == 0 then []
    else
      var d := Dedup(s[..|s| - 1]);
      if s[|s| - 1] in d then d else d + [s[|s| - 1]]
  }

  /** The elements of array_unique's result are exactly those of its input, without repeats. */
  lemma {:induction false} DedupElements<T>(s: seq<T>)
    ensures NoDuplicates(Dedup(s))
    ensures forall x :: x in Dedup(s) <==> x in s
  {
    if |s| > 0 {
      var front := s[..|s| - 1];
      DedupElements(front);
      assert s == front + [s[|s| - 1]];
    }
  }

  /** array_search($x, $s, true): the first index holding x. */
  function IndexOf<T(==)>(s: seq<T>, x: T): (r: Option<nat>)
    ensures r.None? <==> x !in s
    ensures r.Some? ==> r.value < |s| && s[r.value] == x && x !in s[..r.value]
  {
    if |s| == 0 then None
    else if s[0] == x then Some(0)
    else
      var r := IndexOf(s[1..], x);
      if r.None? then None
      else
        assert s[..r.value + 1] == [s[0]] + s[1..][..r.value];
        Some(r.value + 1)
  }

  /** The elements of d appear in s, and in d in the order of their first occurrence in s. */
  predicate InFirstOccurrenceOrder<T(==)>(s: seq<T>, d: seq<T>)
  {
    forall i, j :: 0 <= i < j < |d| ==>
      d[i] in s && d[j] in s && IndexOf(s, d[i]).value < IndexOf(s, d[j]).value
  }

  /** array_unique keeps first occurrences in order: elements come out in the order they first appear. */
  lemma {:induction false} DedupOrder<T>(s: seq<T>)
    ensures InFirstOccurrenceOrder(s, Dedup(s))
  {
    if |s| > 0 {
      var n := |s| - 1;
      DedupOrder(s[..n]);
      assert s == s[..n] + [s[n]];
      DedupOrderStep(s[..n], s[n]);
    }
  }

  lemma DedupOrderStep<T>(a: seq<T>, y: T)
    requires InFirstOccurrenceOrder(a, Dedup(a))
    ensures InFirstOccurrenceOrder(a + [y], Dedup(a + [y]))
  {
    var s := a + [y];
    assert s[..|s| - 1] == a;
    var d := Dedup(s);
    var da := Dedup(a);
    forall x | x in a ensures x in s && IndexOf(s, x) == IndexOf(a, x) {
      IndexOfPrefix(a, [y], x);
    }
    forall i, j | 0 <= i < j < |d|
      ensures d[i] in s && d[j] in s && IndexOf(s, d[i]).value < IndexOf(s, d[j]).value
    {
      assert i < |da| && da[i] in da && d[i] == da[i];
      DedupMember(a, da[i]);
      if j < |da| {
        assert d[j] == da[j] && da[j] in da;
        DedupMember(a, da[j]);
      } else {
        assert y !in da && d[j] == y;
        DedupElements(a);
        assert y !in a;
        assert IndexOf(s, y).value == |a|;
        assert IndexOf(a, d[i]).value < |a|;
      }
    }
  }

  lemma DedupMember<T>(s: seq<T>, x: T)
    requires x in Dedup(s)
    ensures x in s
  {
    DedupElements(s);
  }

  /** Looking an element up in a sequence extended at the end finds the same first index. */
  lemma {:induction false} IndexOfPrefix<T>(a: seq<T>, b: seq<T>, x: T)
    requires x in a
    ensures IndexOf(a + b, x) == IndexOf(a, x)
  {
    if a[0] != x {
      assert (a + b)[1..] == a[1..] + b;
      IndexOfPrefix(a[1..], b, x);
    }
  }

  /** A list without repeats is its own array_unique. */
  lemma {:induction false} DedupOfDistinct<T>(s: seq<T>)
    requires NoDuplicates(s)
    ensures Dedup(s) == s
  {
    if |s| > 0 {
      var n := |s| - 1;
      DedupOfDistinct(s[..n]);
      DedupElements(s[..n]);
      assert s[n] !in s[..n];
      assert s == s[..n] + [s[n]];
    }
  }

  /** unset($s[$i]) followed by re-reading the list: element i removed, the others in order. */
  function RemoveAt<T>(s: seq<T>, i: nat): (r: seq<T>)
    requires i < |s|
    ensures |r| == |s| - 1
    ensures forall k :: 0 <= k < i ==> r[k] == s[k]
    ensures forall k :: i <= k < |r| ==> r[k] == s[k + 1]
  {
    s[..i] + s[i + 1..]
  }

  // ---------------------------------------------------------------------
  // Integers and strings.
  // ---------------------------------------------------------------------

  predicate IsDigit(c: char)
  {
    '0' <= c <= '9'
  }

  function DigitChar(d: nat): (c: char)
    requires d < 10
    ensures IsDigit(c)
  {
    "0123456789"[d]
  }

  /** The decimal digits of n without sign. */
  function NatToString(n: nat): (s: string)
    ensures |s| > 0 && forall k :: 0 <= k < |s| ==> IsDigit(s[k])
  {
    if n < 10 then [DigitChar(n)] else NatToString(n / 10) + [DigitChar(n % 10)]
  }

  /** PHP's int-to-string conversion ("$n", sprintf %s of an int). */
  function IntToString(n: int): (s: string)
    ensures |s| > 0
  {
    if n < 0 then "-" + NatToString(-n) else NatToString(n)
  }

  function DigitValue(c: char): (d: nat)
    requires IsDigit(c)
    ensures d < 10
  {
    (c as int) - ('0' as int)
  }

  /** The value of a run of decimal digits read from the left. */
  function DigitsValue(s: string): nat
    requires forall k :: 0 <= k < |s| ==> IsDigit(s[k])
  {
    if |s| == 0 then 0 else DigitsValue(s[..|s| - 1]) * 10 + DigitValue(s[|s| - 1])
  }

  /** The number of leading characters of s that are digits. */
  function DigitRun(s: string): (n: nat)
    ensures n <= |s|
    ensures forall k :: 0 <= k < n ==> IsDigit(s[k])
    ensures n < |s| ==> !IsDigit(s[n])
  {
    if |s| == 0 || !IsDigit(s[0]) then 0 else 1 + DigitRun(s[1..])
  }

  predicate IsSpace(c: char)
  {
    c == ' ' || c == '\t' || c == '\n' || c == '\r' || c == '\U{B}' || c == '\U{C}'
  }

  /** The bounds of PHP's 64-bit int. */
  const PHP_INT_MAX: int := 0x7fff_ffff_ffff_ffff
  const PHP_INT_MIN: int := -PHP_INT_MAX - 1

  /** A decimal value outside the 64-bit range is cast to the nearest bound. */
  function Saturate(n: int): (r: int)
    ensures PHP_INT_MIN <= r <= PHP_INT_MAX
    ensures PHP_INT_MIN <= n <= PHP_INT_MAX ==> r == n
    ensures n > PHP_INT_MAX ==> r == PHP_INT_MAX
    ensures n < PHP_INT_MIN ==> r == PHP_INT_MIN
  {
    if n > PHP_INT_MAX then PHP_INT_MAX else if n < PHP_INT_MIN then PHP_INT_MIN else n
  }

  /**
   * (int)$s for a string: leading white space, an optional sign, then the
   * leading digits (0 if none), saturated to the 64-bit range.
   */
  function StringToInt(s: string): (r: int)
    ensures PHP_INT_MIN <= r <= PHP_INT_MAX
  {
    if |s| > 0 && IsSpace(s[0]) then StringToInt(s[1..])
    else if |s| > 0 && (s[0] == '-' || s[0] == '+') then
      var n: int := DigitsValue(s[1..][..DigitRun(s[1..])]);
      Saturate(if s[0] == '-' then -n else n)
    else Saturate(DigitsValue(s[..DigitRun(s)]))
  }

  /** (int)$v as applied to an error code read from a decoded JSON body. */
  function ToInt(v: Value): int
  {
    match v
    case Null => 0
    case Bool(b) => if b then 1 else 0
    case Int(i) => i
    case Str(s) => StringToInt(s)
    case List(items) => if |items| == 0 then 0 else 1
    case Dict(fields) => if |fields| == 0 then 0 else 1
    case File(_) => 1
  }

  /** Reading a number back from its decimal text gives the number. */
  lemma {:induction false} NatToStringRoundTrip(n: nat)
    ensures DigitsValue(NatToString(n)) == n
  {
    if n >= 10 {
      NatToStringRoundTrip(n / 10);
      var s := NatToString(n / 10) + [DigitChar(n % 10)];
      assert s[..|s| - 1] == NatToString(n / 10);
    }
  }

  /** A digits-only string fills its own digit run. */
  lemma {:induction false} DigitRunAll(s: string)
    requires forall k :: 0 <= k < |s| ==> IsDigit(s[k])
    ensures DigitRun(s) == |s|
  {
    if |s| > 0 {
      DigitRunAll(s[1..]);
    }
  }

  /** A digits-only string is read as its value, saturated at PHP_INT_MAX. */
  lemma DigitsToInt(t: string)
    requires |t| > 0 && forall k :: 0 <= k < |t| ==> IsDigit(t[k])
    ensures StringToInt(t) == Saturate(DigitsValue(t))
  {
    assert IsDigit(t[0]);
    assert !IsSpace(t[0]) && t[0] != '-' && t[0] != '+';
    DigitRunAll(t);
    assert t[..|t|] == t;
  }

  /** A minus sign and a digits-only string are read as the negated value, saturated at PHP_INT_MIN. */
  lemma NegativeDigitsToInt(t: string)
    requires |t| > 0 && forall k :: 0 <= k < |t| ==> IsDigit(t[k])
    ensures StringToInt("-" + t) == Saturate(-(DigitsValue(t) as int))
  {
    var s := "-" + t;
    assert s[0] == '-' && s[1..] == t;
    assert !IsSpace(s[0]);
    DigitRunAll(t);
    assert t[..|t|] == t;
  }

  /** On PHP's int range the (int) cast undoes the int-to-string conversion. */
  lemma IntCastRoundTrip(n: int)
    requires PHP_INT_MIN <= n <= PHP_INT_MAX
    ensures ToInt(Str(IntToString(n))) == n
  {
    var m: nat := if n < 0 then -n else n;
    NatToStringRoundTrip(m);
    if n < 0 {
      NegativeDigitsToInt(NatToString(m));
    } else {
      DigitsToInt(NatToString(m));
    }
  }

  /** Decimal text beyond the 64-bit range is cast to the bound on its side. */
  lemma IntCastSaturates(n: int)
    requires n > PHP_INT_MAX || n < PHP_INT_MIN
    ensures ToInt(Str(IntToString(n))) == if n > 0 then PHP_INT_MAX else PHP_INT_MIN
  {
    var m: nat := if n < 0 then -n else n;
    NatToStringRoundTrip(m);
    if n < 0 {
      NegativeDigitsToInt(NatToString(m));
    } else {
      DigitsToInt(NatToString(m));
    }
  }

  /** Concatenation regroups. */
  lemma AppendAssoc<T>(a: seq<T>, b: seq<T>, c: seq<T>)
    ensures a + (b + c) == (a + b) + c
  {
  }

  /** A non-empty sequence is its front followed by its last element. */
  lemma SnocSplit<T>(s: seq<T>)
    requires |s| > 0
    ensures s == s[..|s| - 1] + [s[|s| - 1]]
  {
  }
}
