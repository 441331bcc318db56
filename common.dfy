/** Shared vocabulary: optional and fallible results, the few string
    operations of java.lang.String the library relies on, and the
    order-preserving duplicate removal that java.util.LinkedHashSet gives. */
module Common {

  /** A Java reference that may be null. */
  datatype Option<+T> = None | Some(value: T) {
    function GetOr(default: T): T {
      match this
      case Some(v) => v
      case None => default
    }
  }

  /** A computation that either returns a value or throws. */
  datatype Result<+R, +E> = Success(value: R) | Failure(error: E)

  /** A computation with no value that may throw. */
  datatype Outcome<+E> = Pass | Fail(error: E)

  // ---------------------------------------------------------------------
  // Strings

  /** String.startsWith */
  predicate StartsWith(s: string, prefix: string) {
    |prefix| <= |s| && s[..|prefix|] == prefix
  }

  /** String.join(sep, xs) */
  function Join(sep: string, xs: seq<string>): (r: string)
    ensures |xs| == 1 ==> r == xs[0]
    ensures xs == [] ==> r == ""
  {
    if |xs| == 0 then ""
    else if |xs| == 1 then xs[0]
    else xs[0] + sep + Join(sep, xs[1..])
  }

  /** Every element followed by one space: what a StringBuilder holds after
      `append(x).append(" ")` for each x in turn. */
  function Terminated(xs: seq<string>): string {
    if xs == [] then "" else xs[0] + " " + Terminated(xs[1..])
  }

  lemma {:induction false} TerminatedIsJoinPlusSpace(xs: seq<string>)
    requires xs != []
    ensures Terminated(xs) == Join(" ", xs) + " "
  {
    if |xs| > 1 {
      TerminatedIsJoinPlusSpace(xs[1..]);
      assert Terminated(xs) == xs[0] + " " + (Join(" ", xs[1..]) + " ");
    }
  }

  /** Appending one element to a StringBuilder loop. */
  lemma {:induction false} TerminatedSnoc(xs: seq<string>, x: string)
    ensures Terminated(xs + [x]) == Terminated(xs) + x + " "
  {
    if xs != [] {
      assert (xs + [x])[1..] == xs[1..] + [x];
      TerminatedSnoc(xs[1..], x);
    } else {
      assert [x][1..] == [];
    }
  }

  /** Character.toLowerCase on the ASCII letters. */
  function ToLowerAscii(c: char): char {
    if 'A' <= c <= 'Z' then (c as int + 32) as char else c
  }

  /** String.equalsIgnoreCase, for ASCII text. */
  predicate EqualsIgnoreCase(a: string, b: string) {
    |a| == |b| && forall i | 0 <= i < |a| :: ToLowerAscii(a[i]) == ToLowerAscii(b[i])
  }

  /** String.trim removes every leading and trailing character whose code is
      at most U+0020. */
  predicate IsTrimmed(c: char) { c <= ' ' }

  function TrimStart(s: string): (r: string)
    ensures |r| <= |s| && r == s[|s| - |r|..]
    ensures r != [] ==> !IsTrimmed(r[0])
  {
    if s != [] && IsTrimmed(s[0]) then TrimStart(s[1..]) else s
  }

  function TrimEnd(s: string): (r: string)
    ensures |r| <= |s| && r == s[..|r|]
    ensures r != [] ==> !IsTrimmed(r[|r| - 1])
  {
    if s != [] && IsTrimmed(s[|s| - 1]) then TrimEnd(s[..|s| - 1]) else s
  }

  function Trim(s: string): string {
    TrimEnd(TrimStart(s))
  }

  lemma {:induction false} TrimEndDropsSpace(s: string)
    ensures TrimEnd(s + " ") == TrimEnd(s)
  {
    assert (s + " ")[..|s + " "| - 1] == s;
  }

  lemma {:induction false} TrimStartOfSpaced(s: string)
    ensures TrimStart(s + " ") == if TrimStart(s) == "" then "" else TrimStart(s) + " "
  {
    if s == [] {
      assert TrimStart(" ") == TrimStart("");
    } else if IsTrimmed(s[0]) {
      assert (s + " ")[0] == s[0];
      assert TrimStart(s + " ") == TrimStart(s[1..] + " ") by {
        assert (s + " ")[1..] == s[1..] + " ";
      }
      TrimStartOfSpaced(s[1..]);
    } else {
      assert (s + " ")[0] == s[0];
      assert TrimStart(s + " ") == s + " " && TrimStart(s) == s;
    }
  }

  /** A trailing space never survives trim. */
  lemma TrimDropsTrailingSpace(s: string)
    ensures Trim(s + " ") == Trim(s)
  {
    TrimStartOfSpaced(s);
    if TrimStart(s) != "" {
      TrimEndDropsSpace(TrimStart(s));
    }
  }

  // ---------------------------------------------------------------------
  // Duplicate-free sequences

  predicate NoDup<T(==)>(s: seq<T>) {
    forall i, j :: 0 <= i < j < |s| ==> s[i] != s[j]
  }

  /** Index of the first occurrence of x in s (List.indexOf). */
  function IndexOf<T(==)>(s: seq<T>, x: T): (r: nat)
    requires x in s
    ensures r < |s| && s[r] == x
    ensures forall k :: 0 <= k < r ==> s[k] != x
  {
    if s[0] == x then 0 else 1 + IndexOf(s[1..], x)
  }

  /** The contents of `new LinkedHashSet<>(s)` (or of an empty LinkedHashSet
      after `addAll(s)`), in iteration order: each element is added in turn
      and kept only the first time it is seen. */
  function Distinct<T(==)>(s: seq<T>): seq<T> {
    if s == [] then []
    else
      var d := Distinct(s[..|s| - 1]);
      if s[|s| - 1] in d then d else d + [s[|s| - 1]]
  }

  /** Distinct keeps exactly the elements of its input, each once. */
  lemma {:induction false} DistinctElements<T>(s: seq<T>)
    ensures NoDup(Distinct(s))
    ensures forall x :: x in Distinct(s) <==> x in s
  {
    if s != [] {
      var init := s[..|s| - 1];
      DistinctElements(init);
      assert forall x :: x in s <==> x in init || x == s[|s| - 1];
    }
  }

  /** Every element of r occurs in s, and r lists them in the order of
      their first occurrence in s. */
  ghost predicate InFirstOccurrenceOrder<T>(r: seq<T>, s: seq<T>) {
    forall i, j :: 0 <= i < j < |r| ==>
      r[i] in s && r[j] in s && IndexOf(s, r[i]) < IndexOf(s, r[j])
  }

  /** Distinct keeps the first occurrences, in the order they occur in s. */
  lemma {:induction false} DistinctOrder<T>(s: seq<T>)
    ensures InFirstOccurrenceOrder(Distinct(s), s)
  {
    DistinctElements(s);
    if s != [] {
      var init := s[..|s| - 1];
      var last := s[|s| - 1];
      DistinctOrder(init);
      DistinctElements(init);
      var d := Distinct(s);
      forall x | x in init
        ensures IndexOf(s, x) == IndexOf(init, x)
      {
        IndexOfPrefix(s, init, x);
      }
      if last !in init {
        assert d == Distinct(init) + [last];
        forall i | 0 <= i < |d| - 1
          ensures IndexOf(s, d[i]) < IndexOf(s, last)
        {
          assert d[i] == Distinct(init)[i] && d[i] in Distinct(init);
          assert IndexOf(s, last) == |s| - 1;
        }
      }
    }
  }

  lemma {:induction false} IndexOfPrefix<T>(s: seq<T>, p: seq<T>, x: T)
    requires |p| <= |s| && p == s[..|p|] && x in p
    ensures x in s && IndexOf(s, x) == IndexOf(p, x)
  {
    if p[0] != x {
      assert s[1..][..|p| - 1] == p[1..];
      IndexOfPrefix(s[1..], p[1..], x);
    }
  }

  /** Distinct of a longer sequence extends Distinct of its prefix: adding
      more elements never reorders or drops the ones already kept. */
  lemma {:induction false} DistinctPrefix<T>(a: seq<T>, b: seq<T>)
    ensures Distinct(a) <= Distinct(a + b)
    decreases |b|
  {
    if b != [] {
      var ab := a + b;
      assert ab[..|ab| - 1] == a + b[..|b| - 1];
      DistinctPrefix(a, b[..|b| - 1]);
    } else {
      assert a + b == a;
    }
  }

  /** A sequence without duplicates is its own Distinct. */
  lemma {:induction false} DistinctOfNoDup<T>(s: seq<T>)
    requires NoDup(s)
    ensures Distinct(s) == s
  {
    if s != [] {
      var init := s[..|s| - 1];
      DistinctOfNoDup(init);
      assert s[|s| - 1] !in init;
      assert init + [s[|s| - 1]] == s;
    }
  }
}
