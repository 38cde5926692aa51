/**
 * The argument handling of run-bench.py: which benchmark patterns a
 * --benchcompare category resolves to, and which comparison scripts a
 * command line leads to. The scripts themselves (the subprocess calls)
 * are outside the model; an outcome names the script and its arguments.
 */
module RunBench {
  datatype Option<T> = None | Some(value: T)

  /** The parsed command line; `given` is false when no argument at all was passed. */
  datatype Args = Args(given: bool, branchcompare: bool, branch: string,
                       benchcompare: Option<string>, filter: Option<string>)

  /** One script invocation. */
  datatype Call =
    | BenchCompare(baseline: string, contender: string)
    | BranchCompare(branch: string)
    | BranchCompareFiltered(branch: string, filter: string)

  /** parser.error exits before any script runs; otherwise the scripts run in order. */
  datatype Outcome = UsageError(message: string) | Runs(calls: seq<Call>)

  /** The default of --branch. */
  const DEFAULT_BRANCH: string := "main"

  /** Python's `sub in s`. */
  predicate Contains(s: string, sub: string)
    decreases |s|
  {
    (|sub| <= |s| && s[..|sub|] == sub) || (|s| > 0 && Contains(s[1..], sub))
  }

  /** A text without the first character of sub does not contain sub. */
  lemma {:induction false} NotContains(s: string, sub: string)
    requires |sub| > 0 && forall i :: 0 <= i < |s| ==> s[i] != sub[0]
    ensures !Contains(s, sub)
    decreases |s|
  {
    if |sub| <= |s| {
      assert s[..|sub|][0] == s[0];
    }
    if |s| > 0 {
      NotContains(s[1..], sub);
    }
  }

  /** Python's truth value of an optional string: present and non-empty. */
  predicate Truthy(o: Option<string>)
  {
    o.Some? && o.value != []
  }

  /** filterb: the --filter text, or the empty suffix. */
  function FilterSuffix(filter: Option<string>): (r: string)
    ensures filter.Some? ==> r == filter.value
    ensures filter.None? ==> r == []
  {
    if filter.Some? then filter.value else []
  }

  /** A benchmark pattern: a prefix, any text, then the filter. */
  function Pattern(prefix: string, filter: string): string
  {
    prefix + ".*" + filter
  }

  /** The if-chain of --benchcompare: the (baseline, contender) patterns, or None for an unknown category. */
  function Resolve(category: string, filter: string): (r: Option<(string, string)>)
  {
    if Contains(category, "qsort") then Some((Pattern("scalarsort", filter), Pattern("simdsort", filter)))
    else if Contains(category, "select") then Some((Pattern("scalarqselect", filter), Pattern("simdqselect", filter)))
    else if Contains(category, "partial") then Some((Pattern("scalarpartialsort", filter), Pattern("simdpartialsort", filter)))
    else if Contains(category, "argsort") then Some((Pattern("scalarargsort", filter), Pattern("simdargsort", filter)))
    else if Contains(category, "keyvalue") then Some((Pattern("scalarkvsort", filter), Pattern("simdkvsort", filter)))
    else None
  }

  /** The keywords in the order they are tried, with the baseline and contender prefixes. */
  const CATEGORIES: seq<(string, string, string)> := [
    ("qsort", "scalarsort", "simdsort"),
    ("select", "scalarqselect", "simdqselect"),
    ("partial", "scalarpartialsort", "simdpartialsort"),
    ("argsort", "scalarargsort", "simdargsort"),
    ("keyvalue", "scalarkvsort", "simdkvsort")
  ]

  /** Reference resolution: the prefixes of the first table row from k on whose keyword occurs in the category. */
  function FirstMatch(table: seq<(string, string, string)>, k: nat, category: string): (r: Option<(string, string)>)
    decreases |table| - k
  {
    if k >= |table| then None
    else if Contains(category, table[k].0) then Some((table[k].1, table[k].2))
    else FirstMatch(table, k + 1, category)
  }

  /** The whole script: the usage check, then --benchcompare, then --branchcompare. */
  function Run(args: Args): (r: Outcome)
  {
    if !args.given then UsageError("requires one of --benchcompare or --branchcompare")
    else
      var filterb := FilterSuffix(args.filter);
      var bench :=
        if Truthy(args.benchcompare) then
          match Resolve(args.benchcompare.value, filterb)
          case None => None
          case Some(p) => Some([BenchCompare(p.0, p.1)])
        else Some([]);
      if bench.None? then UsageError("ERROR: Unknown argument '" + args.benchcompare.value + "'")
      else
        var branch :=
          if !args.branchcompare then []
          else if args.filter.None? then [BranchCompare(args.branch)]
          else [BranchCompareFiltered(args.branch, args.filter.value)];
        Runs(bench.value + branch)
  }

  // ---------------------------------------------------------------------
  // Properties

  /**
   * The if-chain is the first-match rule over the keyword table: the
   * category resolves to the patterns of the first keyword it contains,
   * each pattern the prefix, ".*", and the filter.
   */
  lemma {:induction false} ResolveIsFirstMatch(category: string, filter: string)
    ensures Resolve(category, filter).None? <==> FirstMatch(CATEGORIES, 0, category).None?
    ensures FirstMatch(CATEGORIES, 0, category).Some? ==>
      var m := FirstMatch(CATEGORIES, 0, category).value;
      Resolve(category, filter) == Some((Pattern(m.0, filter), Pattern(m.1, filter)))
  {
    var t, c := CATEGORIES, category;
    assert FirstMatch(t, 5, c) == None;
    assert FirstMatch(t, 4, c) == if Contains(c, "keyvalue") then Some(("scalarkvsort", "simdkvsort")) else None;
    assert FirstMatch(t, 3, c) == if Contains(c, "argsort") then Some(("scalarargsort", "simdargsort")) else FirstMatch(t, 4, c);
    assert FirstMatch(t, 2, c) == if Contains(c, "partial") then Some(("scalarpartialsort", "simdpartialsort")) else FirstMatch(t, 3, c);
    assert FirstMatch(t, 1, c) == if Contains(c, "select") then Some(("scalarqselect", "simdqselect")) else FirstMatch(t, 2, c);
    assert FirstMatch(t, 0, c) == if Contains(c, "qsort") then Some(("scalarsort", "simdsort")) else FirstMatch(t, 1, c);
  }

  /** An unknown category is one that contains none of the keywords. */
  lemma {:induction false} UnknownCategory(category: string, filter: string)
    ensures Resolve(category, filter).None? <==>
      forall k :: 0 <= k < |CATEGORIES| ==> !Contains(category, CATEGORIES[k].0)
  {
    var t := CATEGORIES;
    assert t[0].0 == "qsort" && t[1].0 == "select" && t[2].0 == "partial" && t[3].0 == "argsort" && t[4].0 == "keyvalue";
  }

  /** "argselect" contains "select" before "argsort" is tried, so it resolves to the qselect patterns. */
  lemma ArgselectIsSelect(filter: string)
    ensures Resolve("argselect", filter) == Some((Pattern("scalarqselect", filter), Pattern("simdqselect", filter)))
  {
    var s := "argselect";
    forall i | 0 <= i < |s| ensures s[i] != 'q' {
      assert i == 0 || i == 1 || i == 2 || i == 3 || i == 4 || i == 5 || i == 6 || i == 7 || i == 8;
    }
    NotContains(s, "qsort");
    assert s[3..][..6] == "select";
    assert s[2..][1..] == s[3..] && s[1..][1..] == s[2..];
    assert Contains(s[3..], "select") && Contains(s[2..], "select") && Contains(s[1..], "select");
  }

  /** Without any argument the script stops with a usage error and runs nothing. */
  lemma NoArguments(args: Args)
    requires !args.given
    ensures Run(args).UsageError?
  {
  }

  /**
   * An unknown --benchcompare category stops the script with an error
   * before any script runs, even when --branchcompare is also given.
   */
  lemma {:induction false} UnknownStopsEverything(args: Args)
    requires args.given && Truthy(args.benchcompare)
    requires forall k :: 0 <= k < |CATEGORIES| ==> !Contains(args.benchcompare.value, CATEGORIES[k].0)
    ensures Run(args).UsageError?
  {
    UnknownCategory(args.benchcompare.value, FilterSuffix(args.filter));
  }

  /**
   * The calls a command line leads to: a known category gives one
   * bench-compare call with its two patterns (an absent filter contributing
   * the empty suffix), and --branchcompare adds one branch-compare call
   * that passes the filter only when one was given.
   */
  lemma {:induction false} RunCalls(args: Args)
    requires args.given
    requires Truthy(args.benchcompare) ==> Resolve(args.benchcompare.value, FilterSuffix(args.filter)).Some?
    ensures Run(args).Runs?
    ensures |Run(args).calls| == (if Truthy(args.benchcompare) then 1 else 0) + (if args.branchcompare then 1 else 0)
    ensures Truthy(args.benchcompare) ==>
      var p := Resolve(args.benchcompare.value, FilterSuffix(args.filter)).value;
      Run(args).calls[0] == BenchCompare(p.0, p.1)
    ensures args.branchcompare ==>
      Run(args).calls[|Run(args).calls| - 1] ==
        (if args.filter.None? then BranchCompare(args.branch) else BranchCompareFiltered(args.branch, args.filter.value))
  {
  }
}
