/** ArgumentsParser: turns the command-line token array into a map from
    option name to the values found for it.  The scan looks at every token
    in turn as a possible key, with the following token as its candidate
    value; it stops at the first `--`, whose following tokens are joined
    into one value of the reserved key `--`. */
module ArgumentsParser {
  import opened Common

  /** Option name -> recorded values. */
  type Arguments = map<string, seq<string>>

  /** The reserved key for the operand tail, also the end-of-options token
      (Guideline 10 of section 12.2 of POSIX.1-2008). */
  const Delimiter := "--"

  /** Every key has at least one value and no value twice. */
  ghost predicate WellFormed(m: Arguments) {
    forall k | k in m :: |m[k]| > 0 && NoDup(m[k])
  }

  /** m' extends m: no key is lost and every value list only grows at its end. */
  ghost predicate Extends(m: Arguments, m': Arguments) {
    forall k | k in m :: k in m' && m[k] <= m'[k]
  }

  /** `get(args, index)`: the token at index, or "" past the end. */
  function Get(args: seq<string>, index: nat): (r: string)
    ensures index < |args| ==> r == args[index]
    ensures index >= |args| ==> r == ""
  {
    if index >= |args| then "" else args[index]
  }

  /** `add`: create the key's list if absent, append the value unless the
      list already holds it. */
  function Add(m: Arguments, key: string, value: string): Arguments {
    var values := if key in m then m[key] else [];
    if value in values then m[key := values] else m[key := values + [value]]
  }

  /** What `add` does to the map: the keys grow by exactly the given key,
      other keys keep their lists, and the key's list holds the value,
      having grown at its end by at most one (a new key gets just it). */
  lemma AddSpec(m: Arguments, key: string, value: string)
    ensures Add(m, key, value).Keys == m.Keys + {key}
    ensures forall k | k in m && k != key :: Add(m, key, value)[k] == m[k]
    ensures value in Add(m, key, value)[key]
    ensures key in m ==> m[key] <= Add(m, key, value)[key] && |Add(m, key, value)[key]| <= |m[key]| + 1
    ensures key !in m ==> Add(m, key, value)[key] == [value]
  {
  }

  /** `add` keeps every list non-empty and duplicate-free. */
  lemma AddWellFormed(m: Arguments, key: string, value: string)
    requires WellFormed(m)
    ensures WellFormed(Add(m, key, value))
  {
    var values := if key in m then m[key] else [];
    if value !in values {
      assert NoDup(values + [value]) by {
        assert forall i | 0 <= i < |values| :: (values + [value])[i] == values[i];
      }
    }
  }

  /** The loop over `key.substring(1).split("")`: "true" under each
      one-character key, in order. */
  function AddFlags(m: Arguments, flags: string): Arguments {
    if flags == [] then m
    else Add(AddFlags(m, flags[..|flags| - 1]), [flags[|flags| - 1]], "true")
  }

  /** AddFlags keeps every key and value already there. */
  lemma {:induction false} AddFlagsExtends(m: Arguments, flags: string)
    ensures Extends(m, AddFlags(m, flags))
  {
    if flags != [] {
      var before := AddFlags(m, flags[..|flags| - 1]);
      AddFlagsExtends(m, flags[..|flags| - 1]);
      assert Extends(before, AddFlags(m, flags));
    }
  }

  /** AddFlags adds only one-character keys. */
  lemma {:induction false} AddFlagsNewKeys(m: Arguments, flags: string)
    ensures forall k | k in AddFlags(m, flags) && k !in m :: |k| == 1
  {
    if flags != [] {
      AddFlagsNewKeys(m, flags[..|flags| - 1]);
    }
  }

  /** AddFlags records "true" under every flag character. */
  lemma {:induction false} AddFlagRecorded(m: Arguments, flags: string, i: nat)
    requires i < |flags|
    ensures [flags[i]] in AddFlags(m, flags) && "true" in AddFlags(m, flags)[[flags[i]]]
  {
    var init := flags[..|flags| - 1];
    if i < |init| {
      AddFlagRecorded(m, init, i);
      assert flags[i] == init[i];
      var before := AddFlags(m, init);
      var key, k := [flags[|flags| - 1]], [flags[i]];
      assert k == key || AddFlags(m, flags)[k] == before[k];
    }
  }

  lemma {:induction false} AddFlagsWellFormed(m: Arguments, flags: string)
    requires WellFormed(m)
    ensures WellFormed(AddFlags(m, flags))
  {
    if flags != [] {
      AddFlagsWellFormed(m, flags[..|flags| - 1]);
      AddWellFormed(AddFlags(m, flags[..|flags| - 1]), [flags[|flags| - 1]], "true");
    }
  }

  /** What one iteration records for a key other than `--`, given the
      candidate value that follows it. */
  function Record(m: Arguments, key: string, value: string): Arguments {
    if StartsWith(key, "--") && |key| > 2 then
      Add(m, key[2..], value)
    else if StartsWith(key, "-") && |key| == 2 && (value == "" || value == "--") then
      Add(m, key[1..], "true")
    else if StartsWith(key, "-") && |key| == 2 then
      Add(m, key[1..], value)
    else if StartsWith(key, "-") && |key| > 2 then
      AddFlags(m, key[1..])
    else
      m
  }

  /** The scan from index i on, starting from the map m. */
  function ParseFrom(args: seq<string>, i: nat, m: Arguments): Arguments
    requires i <= |args|
    decreases |args| - i
  {
    if i == |args| then m
    else if args[i] == Delimiter then
      if Get(args, i + 1) != "" then Add(m, Delimiter, Join(" ", args[i + 1..])) else m
    else
      ParseFrom(args, i + 1, Record(m, args[i], Get(args, i + 1)))
  }

  /** What `parse(args)` returns. */
  function Parsed(args: seq<string>): Arguments {
    ParseFrom(args, 0, map[])
  }

  /** `parse`: the for loop over args, mutating the result map. */
  method Parse(args: seq<string>) returns (results: Arguments)
    ensures results == Parsed(args)
    ensures WellFormed(results)
  {
    results := map[];
    var i := 0;
    while i < |args|
      invariant 0 <= i <= |args|
      invariant ParseFrom(args, i, results) == Parsed(args)
    {
      var key := args[i];
      var value := Get(args, i + 1);
      if key == Delimiter {
        if value != "" {
          var operands := Join(" ", args[i + 1..]);
          results := Add(results, key, operands);
        }
        break;
      }
      results := RecordToken(results, key, value);
      i := i + 1;
    }
    if i == |args| {
      assert ParseFrom(args, i, results) == results;
    }
    ParsedWellFormed(args);
  }

  /** The body of the loop for a token other than `--`: the option kinds
      tried in order, each adding to the result map. */
  method RecordToken(m: Arguments, key: string, value: string) returns (results: Arguments)
    ensures results == Record(m, key, value)
  {
    results := m;
    if StartsWith(key, "--") && |key| > 2 {
      results := Add(results, key[2..], value);
    } else if StartsWith(key, "-") && |key| == 2 && (value == "" || value == "--") {
      results := Add(results, key[1..], "true");
    } else if StartsWith(key, "-") && |key| == 2 {
      results := Add(results, key[1..], value);
    } else if StartsWith(key, "-") && |key| > 2 {
      results := AddFlagGroup(results, key[1..]);
    }
  }

  /** The loop over `key.substring(1).split("")`. */
  method AddFlagGroup(m: Arguments, flags: string) returns (results: Arguments)
    ensures results == AddFlags(m, flags)
  {
    results := m;
    for j := 0 to |flags|
      invariant results == AddFlags(m, flags[..j])
    {
      assert flags[..j + 1][..j] == flags[..j];
      results := Add(results, [flags[j]], "true");
    }
    assert flags[..|flags|] == flags;
  }

  // -----------------------------------------------------------------------
  // Properties of the scan

  /** No token before index n is the end-of-options delimiter. */
  ghost predicate NoDelimiterBefore(args: seq<string>, n: nat) {
    forall k | 0 <= k < n && k < |args| :: args[k] != Delimiter
  }

  /** The effect of the first n iterations when none of them stops: each
      token k is recorded with token k+1 as its candidate value. */
  function ScanPrefix(args: seq<string>, n: nat, m: Arguments): Arguments
    requires n <= |args|
  {
    if n == 0 then m else Record(ScanPrefix(args, n - 1, m), args[n - 1], Get(args, n))
  }

  /** One iteration of the scan on a token other than `--`. */
  lemma ParseStep(args: seq<string>, i: nat, m: Arguments, m': Arguments)
    requires i < |args| && args[i] != Delimiter
    requires m' == Record(m, args[i], Get(args, i + 1))
    ensures ParseFrom(args, i, m) == ParseFrom(args, i + 1, m')
  {
  }

  lemma {:induction false} ParseFromSplit(args: seq<string>, i: nat, n: nat, m: Arguments)
    requires i <= n <= |args| && NoDelimiterBefore(args, n)
    ensures ParseFrom(args, i, ScanPrefix(args, i, m)) == ParseFrom(args, n, ScanPrefix(args, n, m))
    decreases n - i
  {
    if i < n {
      var before := ScanPrefix(args, i, m);
      var after := ScanPrefix(args, i + 1, m);
      assert ParseFrom(args, i, before) == ParseFrom(args, i + 1, after) by {
        assert args[i] != Delimiter;
        assert after == Record(before, args[i], Get(args, i + 1));
        ParseStep(args, i, before, after);
      }
      ParseFromSplit(args, i + 1, n, m);
    }
  }

  /** Running the first n iterations and carrying on from there is the
      whole scan, as long as none of the first n tokens is `--`. */
  lemma PrefixThenRest(args: seq<string>, n: nat)
    requires n <= |args| && NoDelimiterBefore(args, n)
    ensures Parsed(args) == ParseFrom(args, n, ScanPrefix(args, n, map[]))
  {
    ParseFromSplit(args, 0, n, map[]);
  }

  /** The scan never loses a key or a value, and appends only at the end
      of each list (first-insertion order). */
  lemma {:induction false} ParseFromExtends(args: seq<string>, i: nat, m: Arguments)
    requires i <= |args|
    ensures Extends(m, ParseFrom(args, i, m))
    decreases |args| - i
  {
    if i < |args| && args[i] != Delimiter {
      var m' := Record(m, args[i], Get(args, i + 1));
      RecordExtends(m, args[i], Get(args, i + 1));
      ParseFromExtends(args, i + 1, m');
    }
  }

  lemma RecordExtends(m: Arguments, key: string, value: string)
    ensures Extends(m, Record(m, key, value))
  {
    if StartsWith(key, "-") && !StartsWith(key, "--") && |key| > 2 {
      AddFlagsExtends(m, key[1..]);
    }
  }

  lemma RecordWellFormed(m: Arguments, key: string, value: string)
    requires WellFormed(m)
    ensures WellFormed(Record(m, key, value))
  {
    if StartsWith(key, "--") && |key| > 2 {
      AddWellFormed(m, key[2..], value);
    } else if StartsWith(key, "-") && |key| == 2 {
      AddWellFormed(m, key[1..], if value == "" || value == "--" then "true" else value);
    } else if StartsWith(key, "-") && |key| > 2 {
      AddFlagsWellFormed(m, key[1..]);
    }
  }

  lemma {:induction false} ParseFromWellFormed(args: seq<string>, i: nat, m: Arguments)
    requires i <= |args| && WellFormed(m)
    ensures WellFormed(ParseFrom(args, i, m))
    decreases |args| - i
  {
    if i < |args| && args[i] != Delimiter {
      RecordWellFormed(m, args[i], Get(args, i + 1));
      ParseFromWellFormed(args, i + 1, Record(m, args[i], Get(args, i + 1)));
    } else if i < |args| && Get(args, i + 1) != "" {
      AddWellFormed(m, Delimiter, Join(" ", args[i + 1..]));
    }
  }

  /** Every key's list is non-empty and duplicate-free. */
  lemma ParsedWellFormed(args: seq<string>)
    ensures WellFormed(Parsed(args))
  {
    ParseFromWellFormed(args, 0, map[]);
  }

  /** At the first `--`: if a non-empty token follows, the key `--` gets the
      remaining tokens joined by one space and the scan stops; if it is the
      last token or the next token is "", nothing more is recorded. */
  lemma DelimiterStopsScan(args: seq<string>, i: nat)
    requires i < |args| && args[i] == Delimiter && NoDelimiterBefore(args, i)
    ensures Parsed(args) ==
      if i + 1 < |args| && args[i + 1] != ""
      then Add(ScanPrefix(args, i, map[]), Delimiter, Join(" ", args[i + 1..]))
      else ScanPrefix(args, i, map[])
  {
    PrefixThenRest(args, i);
  }

  /** Only a long option spelled `----` can record under the reserved key. */
  lemma {:induction false} ReservedKeyOnlyFromLongDashes(args: seq<string>, n: nat, m: Arguments)
    requires n <= |args| && Delimiter !in m
    requires forall k | 0 <= k < n :: args[k] != "----"
    ensures Delimiter !in ScanPrefix(args, n, m)
  {
    if n > 0 {
      ReservedKeyOnlyFromLongDashes(args, n - 1, m);
      var key := args[n - 1];
      if StartsWith(key, "--") && |key| > 2 {
        assert key[..2] == "--" && key != "----";
        assert key[2..] != Delimiter;
      } else if StartsWith(key, "-") && |key| > 2 {
        AddFlagsNewKeys(ScanPrefix(args, n - 1, m), key[1..]);
      }
    }
  }

  /** So, unless some earlier token is `----`, the reserved key holds
      exactly one value: the joined operand tail. */
  lemma DelimiterSingleValue(args: seq<string>, i: nat)
    requires i + 1 < |args| && args[i] == Delimiter && args[i + 1] != ""
    requires NoDelimiterBefore(args, i)
    requires forall k | 0 <= k < i :: args[k] != "----"
    ensures Delimiter in Parsed(args) && Parsed(args)[Delimiter] == [Join(" ", args[i + 1..])]
  {
    DelimiterStopsScan(args, i);
    ReservedKeyOnlyFromLongDashes(args, i, map[]);
  }

  /** The first n iterations read only the first n + 1 tokens. */
  lemma {:induction false} ScanPrefixReadsPrefix(a: seq<string>, b: seq<string>, n: nat, m: Arguments)
    requires n < |a| && n < |b| && a[..n + 1] == b[..n + 1]
    ensures ScanPrefix(a, n, m) == ScanPrefix(b, n, m)
  {
    if n > 0 {
      assert a[..n] == a[..n + 1][..n] && b[..n] == b[..n + 1][..n];
      ScanPrefixReadsPrefix(a, b, n - 1, m);
      assert a[n - 1] == a[..n + 1][n - 1] && a[n] == a[..n + 1][n];
    }
  }

  /** Tokens after the first `--` affect no key other than `--`. */
  lemma OperandsDoNotLeak(a: seq<string>, b: seq<string>, i: nat)
    requires i < |a| && i < |b| && a[..i + 1] == b[..i + 1]
    requires a[i] == Delimiter && NoDelimiterBefore(a, i)
    ensures Parsed(a) - {Delimiter} == Parsed(b) - {Delimiter}
  {
    assert b[i] == b[..i + 1][i] == a[..i + 1][i];
    forall k | 0 <= k < i ensures b[k] != Delimiter {
      assert b[k] == b[..i + 1][k] == a[..i + 1][k] == a[k];
    }
    DelimiterStopsScan(a, i);
    DelimiterStopsScan(b, i);
    ScanPrefixReadsPrefix(a, b, i, map[]);
  }

  /** The value a short option `-x` ends up with in the map. */
  function ShortValue(value: string): string {
    if value == "" || value == Delimiter then "true" else value
  }

  /** A two-character `-x` records "true" when the next token is absent or
      is `--`, and otherwise the next token exactly as written, even one
      that looks like an option. */
  lemma ShortOptionRecorded(args: seq<string>, i: nat)
    requires i < |args| && NoDelimiterBefore(args, i + 1)
    requires |args[i]| == 2 && args[i][0] == '-'
    ensures var key := args[i][1..];
      key in Parsed(args) && ShortValue(Get(args, i + 1)) in Parsed(args)[key]
  {
    var before := ScanPrefix(args, i, map[]);
    var m := ScanPrefix(args, i + 1, map[]);
    assert m == Record(before, args[i], Get(args, i + 1));
    ShortRecordsValue(before, args[i], Get(args, i + 1));
    PrefixValueKept(args, i + 1, args[i][1..], ShortValue(Get(args, i + 1)));
  }

  /** One `-x` token records its short value under x. */
  lemma ShortRecordsValue(m: Arguments, key: string, value: string)
    requires |key| == 2 && key[0] == '-' && key != Delimiter
    ensures key[1..] in Record(m, key, value) && ShortValue(value) in Record(m, key, value)[key[1..]]
  {
    assert StartsWith(key, "-");
  }

  /** A value recorded by the first n iterations is in the result when none
      of them stops the scan. */
  lemma PrefixValueKept(args: seq<string>, n: nat, key: string, value: string)
    requires n <= |args| && NoDelimiterBefore(args, n)
    requires key in ScanPrefix(args, n, map[]) && value in ScanPrefix(args, n, map[])[key]
    ensures key in Parsed(args) && value in Parsed(args)[key]
  {
    PrefixThenRest(args, n);
    ParseFromExtends(args, n, ScanPrefix(args, n, map[]));
  }

  /** `--name` records the next token, or "" when it is the last token,
      under `name`, without checking what that token looks like. */
  lemma LongOptionRecorded(args: seq<string>, i: nat)
    requires i < |args| && NoDelimiterBefore(args, i + 1)
    requires StartsWith(args[i], "--") && |args[i]| > 2
    ensures var key := args[i][2..];
      key in Parsed(args) && Get(args, i + 1) in Parsed(args)[key]
  {
    var before := ScanPrefix(args, i, map[]);
    assert ScanPrefix(args, i + 1, map[]) == Add(before, args[i][2..], Get(args, i + 1));
    PrefixValueKept(args, i + 1, args[i][2..], Get(args, i + 1));
  }

  /** `-abc` records "true" under each of `a`, `b` and `c`. */
  lemma FlagGroupRecorded(args: seq<string>, i: nat, j: nat)
    requires i < |args| && NoDelimiterBefore(args, i + 1)
    requires StartsWith(args[i], "-") && !StartsWith(args[i], "--") && |args[i]| > 2
    requires 1 <= j < |args[i]|
    ensures var key := [args[i][j]]; key in Parsed(args) && "true" in Parsed(args)[key]
  {
    var before := ScanPrefix(args, i, map[]);
    var m := ScanPrefix(args, i + 1, map[]);
    assert m == Record(before, args[i], Get(args, i + 1));
    GroupRecordsTrue(before, args[i], Get(args, i + 1), j);
    PrefixValueKept(args, i + 1, [args[i][j]], "true");
  }

  /** One group token records "true" under each of its characters. */
  lemma GroupRecordsTrue(m: Arguments, key: string, value: string, j: nat)
    requires StartsWith(key, "-") && !StartsWith(key, "--") && |key| > 2
    requires 1 <= j < |key|
    ensures [key[j]] in Record(m, key, value) && "true" in Record(m, key, value)[[key[j]]]
  {
    AddFlagRecorded(m, key[1..], j - 1);
    assert key[j] == key[1..][j - 1];
  }

  /** A token that does not start with `-`, or the lone `-`, adds nothing;
      the scan just moves on to the next token. */
  lemma IgnoredTokenAddsNothing(args: seq<string>, i: nat, m: Arguments)
    requires i < |args| && (!StartsWith(args[i], "-") || args[i] == "-")
    ensures ParseFrom(args, i, m) == ParseFrom(args, i + 1, m)
  {
  }

  /** Each iteration moves on by one token, so a token taken as a value is
      examined again as a key: in `-b -a`, `b` gets the value "-a" and `a`
      gets "true" (or the token after it). */
  lemma ValueReexaminedAsKey(args: seq<string>, i: nat)
    requires i + 1 < |args| && NoDelimiterBefore(args, i + 2)
    requires |args[i]| == 2 && args[i][0] == '-'
    requires |args[i + 1]| == 2 && args[i + 1][0] == '-'
    ensures args[i][1..] in Parsed(args) && args[i + 1] in Parsed(args)[args[i][1..]]
    ensures args[i + 1][1..] in Parsed(args) && ShortValue(Get(args, i + 2)) in Parsed(args)[args[i + 1][1..]]
  {
    ShortOptionRecorded(args, i);
    ShortOptionRecorded(args, i + 1);
  }

  /** The same on the concrete tokens `--a "test a" -b -a`. */
  lemma ValueReexaminedExample()
    ensures Parsed(["--a", "test a", "-b", "-a"]) == map["a" := ["test a", "true"], "b" := ["-a"]]
  {
    var args := ["--a", "test a", "-b", "-a"];
    var m1 := map["a" := ["test a"]];
    var m3 := map["a" := ["test a"], "b" := ["-a"]];
    var m4 := map["a" := ["test a", "true"], "b" := ["-a"]];
    ExampleSteps();
    assert ParseFrom(args, 4, m4) == m4;
    assert ParseFrom(args, 3, m3) == ParseFrom(args, 4, m4);
    assert ParseFrom(args, 2, m1) == ParseFrom(args, 3, m3);
    assert ParseFrom(args, 1, m1) == ParseFrom(args, 2, m1);
    assert ParseFrom(args, 0, map[]) == ParseFrom(args, 1, m1);
  }

  lemma ExampleSteps()
    ensures Record(map[], "--a", "test a") == map["a" := ["test a"]]
    ensures Record(map["a" := ["test a"]], "test a", "-b") == map["a" := ["test a"]]
    ensures Record(map["a" := ["test a"]], "-b", "-a") == map["a" := ["test a"], "b" := ["-a"]]
    ensures Record(map["a" := ["test a"], "b" := ["-a"]], "-a", "") == map["a" := ["test a", "true"], "b" := ["-a"]]
  {
    ExampleLong();
    ExampleOperandLike();
    ExampleShortWithValue();
    ExampleShortLast();
  }

  lemma ExampleLong()
    ensures Record(map[], "--a", "test a") == map["a" := ["test a"]]
  {
    assert "--a"[..2] == "--" && "--a"[2..] == "a";
    assert [] + ["test a"] == ["test a"];
  }

  lemma ExampleOperandLike()
    ensures Record(map["a" := ["test a"]], "test a", "-b") == map["a" := ["test a"]]
  {
    assert "test a"[..1] == "t" && "test a"[..2] == "te";
  }

  lemma ExampleShortWithValue()
    ensures Record(map["a" := ["test a"]], "-b", "-a") == map["a" := ["test a"], "b" := ["-a"]]
  {
    assert "-b"[..2] == "-b" && "-b"[..1] == "-" && "-b"[1..] == "b";
    assert "-a" != "" && "-a" != "--";
    assert [] + ["-a"] == ["-a"];
  }

  lemma ExampleShortLast()
    ensures Record(map["a" := ["test a"], "b" := ["-a"]], "-a", "") == map["a" := ["test a", "true"], "b" := ["-a"]]
  {
    var m3 := map["a" := ["test a"], "b" := ["-a"]];
    assert "-a"[..2] == "-a" && "-a"[..1] == "-" && "-a"[1..] == "a";
    assert |"true"| != |"test a"|;
    assert "true" !in m3["a"];
    assert m3["a"] + ["true"] == ["test a", "true"];
    assert m3["a" := ["test a", "true"]] == map["a" := ["test a", "true"], "b" := ["-a"]];
  }
}
