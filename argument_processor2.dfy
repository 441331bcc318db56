/** ArgumentProcessor2: an experimental parser.  Every dash token is a key
    whose value is the following token; values are appended without
    duplicate removal, there is no flag-group splitting, and a `--` followed
    by a non-empty token takes the rest of the line as one value. */
module ArgumentProcessor2 {
  import opened Common
  import ArgumentsParser

  type Results = map<string, seq<string>>

  /** `get`: the token at index, or "" past the end (the same lookup as the
      current parser's). */
  function Get(args: seq<string>, index: nat): string {
    ArgumentsParser.Get(args, index)
  }

  /** `add`: append the value to the key's list, creating it if absent. */
  function Append(m: Results, key: string, value: string): Results {
    m[key := (if key in m then m[key] else []) + [value]]
  }

  /** What `add` does here: the keys grow by exactly the given key, other
      keys keep their lists, and the key's list gets the value at its end
      whether or not it already holds it. */
  lemma AppendSpec(m: Results, key: string, value: string)
    ensures Append(m, key, value).Keys == m.Keys + {key}
    ensures forall k | k in m && k != key :: Append(m, key, value)[k] == m[k]
    ensures Append(m, key, value)[key] == (if key in m then m[key] else []) + [value]
  {
  }

  /** The loop from token i on, with the map built so far. */
  function ProcessFrom(args: seq<string>, i: nat, m: Results): Results
    decreases |args| - i
  {
    if i >= |args| then m
    else
      var key := args[i];
      var value := Get(args, i + 1);
      if StartsWith(key, "--") && |key| == 2 && value != "" then
        Append(m, key, Join(" ", args[i + 1..]))
      else if StartsWith(key, "--") && |key| > 2 then
        ProcessFrom(args, i + 1, Append(m, key[2..], value))
      else if StartsWith(key, "-") && |key| > 1 then
        ProcessFrom(args, i + 1, Append(m, key[1..], value))
      else ProcessFrom(args, i + 1, m)
  }

  function Processed(args: seq<string>): Results {
    ProcessFrom(args, 0, map[])
  }

  /** `process` */
  method Process(args: seq<string>) returns (results: Results)
    ensures results == Processed(args)
  {
    results := map[];
    var i := 0;
    while i < |args|
      invariant 0 <= i <= |args|
      invariant ProcessFrom(args, i, results) == Processed(args)
    {
      var key := args[i];
      var value := Get(args, i + 1);
      if StartsWith(key, "--") && |key| == 2 && value != "" {
        var operands := Join(" ", args[i + 1..]);
        results := Append(results, key, operands);
        break;
      } else if StartsWith(key, "--") && |key| > 2 {
        results := Append(results, key[2..], value);
      } else if StartsWith(key, "-") && |key| > 1 {
        results := Append(results, key[1..], value);
      }
      i := i + 1;
    }
  }

  /** m' extends m: no key lost, each list only grows at its end. */
  ghost predicate Extends(m: Results, m': Results) {
    forall k | k in m :: k in m' && m[k] <= m'[k]
  }

  lemma {:induction false} ProcessFromExtends(args: seq<string>, i: nat, m: Results)
    ensures Extends(m, ProcessFrom(args, i, m))
    decreases |args| - i
  {
    if i < |args| {
      var key := args[i];
      var value := Get(args, i + 1);
      if StartsWith(key, "--") && |key| == 2 && value != "" {
      } else if StartsWith(key, "--") && |key| > 2 {
        ProcessFromExtends(args, i + 1, Append(m, key[2..], value));
      } else if StartsWith(key, "-") && |key| > 1 {
        ProcessFromExtends(args, i + 1, Append(m, key[1..], value));
      } else {
        ProcessFromExtends(args, i + 1, m);
      }
    }
  }

  /** `--` followed by a non-empty token: the rest of the line, joined by
      spaces, is the one value added under `--`, and nothing after it is
      looked at. */
  lemma DelimiterTakesRest(args: seq<string>, i: nat, m: Results)
    requires i + 1 < |args| && args[i] == "--" && args[i + 1] != ""
    ensures ProcessFrom(args, i, m) == Append(m, "--", Join(" ", args[i + 1..]))
  {
  }

  /** `--name` records the next token, or "", under name. */
  lemma LongOption(args: seq<string>, i: nat, m: Results)
    requires i < |args| && StartsWith(args[i], "--") && |args[i]| > 2
    ensures ProcessFrom(args, i, m) == ProcessFrom(args, i + 1, Append(m, args[i][2..], Get(args, i + 1)))
  {
  }

  /** Any other dash token longer than one character is keyed by all it has
      after the first dash, with no group splitting. */
  lemma ShortOption(args: seq<string>, i: nat, m: Results)
    requires i < |args| && StartsWith(args[i], "-") && !StartsWith(args[i], "--") && |args[i]| > 1
    ensures ProcessFrom(args, i, m) == ProcessFrom(args, i + 1, Append(m, args[i][1..], Get(args, i + 1)))
  {
  }

  /** A short option followed by `--` gets `--` as its value, and keeps it. */
  lemma ShortOptionTakesDelimiter(args: seq<string>, i: nat, m: Results)
    requires i + 1 < |args| && StartsWith(args[i], "-") && !StartsWith(args[i], "--") && |args[i]| > 1
    requires args[i + 1] == "--"
    ensures var key := args[i][1..];
      key in ProcessFrom(args, i, m) &&
      (if key in m then m[key] else []) + ["--"] <= ProcessFrom(args, i, m)[key]
  {
    var key := args[i][1..];
    ProcessFromExtends(args, i + 1, Append(m, key, "--"));
  }

  /** A `--` that is the last token, or one followed by "", falls through to
      the short-option rule: key `-`, value the next token or "". */
  lemma DelimiterWithoutOperands(args: seq<string>, i: nat, m: Results)
    requires i < |args| && args[i] == "--" && Get(args, i + 1) == ""
    ensures ProcessFrom(args, i, m) == ProcessFrom(args, i + 1, Append(m, "-", ""))
  {
    assert args[i][1..] == "-";
  }

  lemma TrailingDelimiter(args: seq<string>, m: Results)
    requires |args| > 0 && args[|args| - 1] == "--"
    ensures ProcessFrom(args, |args| - 1, m) == Append(m, "-", "")
  {
    DelimiterWithoutOperands(args, |args| - 1, m);
  }

  /** The key a token records its value under when no `--` is involved. */
  function KeyOf(token: string): Option<string> {
    if StartsWith(token, "--") && |token| > 2 then Some(token[2..])
    else if StartsWith(token, "-") && |token| > 1 then Some(token[1..])
    else None
  }

  /** The values recorded for key k by the tokens from i on: the next token
      of each token that names k, repeats included. */
  function ValuesFor(args: seq<string>, i: nat, k: string): seq<string>
    decreases |args| - i
  {
    if i >= |args| then []
    else (if KeyOf(args[i]) == Some(k) then [Get(args, i + 1)] else []) + ValuesFor(args, i + 1, k)
  }

  function Lookup(m: Results, k: string): seq<string> {
    if k in m then m[k] else []
  }

  /** A token other than `--` appends the next token under its key, if it
      has one, and the scan goes on. */
  lemma StepWithoutDelimiter(args: seq<string>, i: nat, m: Results)
    requires i < |args| && args[i] != "--"
    ensures ProcessFrom(args, i, m) == ProcessFrom(args, i + 1,
      if KeyOf(args[i]).Some? then Append(m, KeyOf(args[i]).value, Get(args, i + 1)) else m)
  {
  }

  /** Without `--` tokens, each key's list is exactly the values recorded
      for it in token order: nothing is dropped or merged. */
  lemma {:induction false} KeepsEveryValue(args: seq<string>, i: nat, m: Results, k: string)
    requires forall j | i <= j < |args| :: args[j] != "--"
    ensures Lookup(ProcessFrom(args, i, m), k) == Lookup(m, k) + ValuesFor(args, i, k)
    decreases |args| - i
  {
    if i < |args| {
      var key := args[i];
      var value := Get(args, i + 1);
      ghost var next := if KeyOf(key).Some? then Append(m, KeyOf(key).value, value) else m;
      StepWithoutDelimiter(args, i, m);
      KeepsEveryValue(args, i + 1, next, k);
      if KeyOf(key) == Some(k) {
        assert Lookup(next, k) == Lookup(m, k) + [value];
      } else {
        assert Lookup(next, k) == Lookup(m, k);
      }
    } else {
      assert Lookup(m, k) + [] == Lookup(m, k);
    }
  }

  /** Repeated values are kept: `-a x -a x` gives a -> [x, x]. */
  lemma RepeatsKept(x: string)
    requires !StartsWith(x, "-")
    ensures Lookup(Processed(["-a", x, "-a", x]), "a") == [x, x]
  {
    var args := ["-a", x, "-a", x];
    KeepsEveryValue(args, 0, map[], "a");
    assert "-a"[1..] == "a" && "-a"[..1] == "-" && "-a"[..2] == "-a";
    assert KeyOf("-a") == Some("a") && KeyOf(x) == None;
    assert ValuesFor(args, 3, "a") == [];
    assert ValuesFor(args, 1, "a") == ValuesFor(args, 2, "a");
  }
}
