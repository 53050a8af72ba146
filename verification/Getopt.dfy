/**
  gnulib/getopt.c: the resumable option scanner.

  First what a command line means, as functions of the elements still to be
  scanned; then the scanner itself, which permutes argv in place while it runs,
  proved to report and to leave behind exactly that.
 */
module Getopt {
  import opened Wrappers

  datatype Ordering = RequireOrder | Permute | ReturnInOrder

  /** `struct option`: flag names the variable to set, if any. */
  datatype LongOption = LongOption(name: string, hasArg: int, flag: Option<nat>, val: int)

  /** What the caller passes unchanged on every call; optstring without a leading '-' or '+'. */
  datatype Config = Config(ordering: Ordering, optstring: string, longopts: Option<seq<LongOption>>, longOnly: bool) {
    /** -1 as an option's value could not be told from the end of the options. */
    ghost predicate Valid() {
      longopts.Some? ==> forall o :: o in longopts.value ==> o.val != -1
    }

    function Missing(): int {
      if At(optstring, 0) == ':' then ':' as int else '?' as int
    }
  }

  /** C string access: NUL at the end. */
  function At(s: string, i: nat): char { if i < |s| then s[i] else '\0' }

  // ------------------------------------------------- what one call reports

  /** The outputs of a call: None where it leaves the variable alone. */
  datatype Report = Report(ret: int, optarg: Option<string>, optopt: Option<int>,
                           longind: Option<nat>, flag: Option<(nat, int)>)

  /** A report, the number of elements it moves past, and the text still pending in the element it stays in. */
  datatype Step = Step(report: Report, used: nat, pending: string)

  function Min(x: nat, y: nat): nat { if x > y then y else x }

  predicate IsNonoption(s: string) { At(s, 0) != '-' || At(s, 1) == '\0' }

  /** The least index from i on that satisfies p, or the length. */
  function First<T>(s: seq<T>, i: nat, p: T -> bool): (r: nat)
    requires i <= |s|
    ensures i <= r <= |s| && (r < |s| ==> p(s[r]))
    ensures forall k :: i <= k < r ==> !p(s[k])
    decreases |s| - i
  {
    if i == |s| || p(s[i]) then i else First(s, i + 1, p)
  }

  /** strchr: the index of the first c, or the length. */
  function IndexOf(s: string, c: char): nat { First(s, 0, x => x == c) }

  method StrChr(s: string, c: char) returns (k: nat)
    ensures k == IndexOf(s, c) && k <= |s|
  {
    k := 0;
    while k < |s| && s[k] != c
      invariant k <= |s| && forall j :: 0 <= j < k ==> s[j] != c
    {
      k := k + 1;
    }
  }

  datatype Match = NoMatch | Ambiguous | Found(index: nat)

  /** Two options an abbreviation may stand for alike. */
  predicate Alike(o: LongOption, p: LongOption) { o.hasArg == p.hasArg && o.flag == p.flag && o.val == p.val }

  /** The option that a name, perhaps abbreviated, denotes. */
  function LongMatch(opts: seq<LongOption>, name: string, longOnly: bool): Match {
    var e := First(opts, 0, (o: LongOption) => o.name == name);
    if e < |opts| then Found(e)
    else
      var f := First(opts, 0, (o: LongOption) => name <= o.name);
      if f == |opts| then NoMatch
      else if First(opts, f + 1, (o: LongOption) => name <= o.name && (longOnly || !Alike(opts[f], o))) < |opts|
      then Ambiguous
      else Found(f)
  }

  /** The length of the name in "name=value". */
  function NameLength(s: string): (n: nat)
    ensures n <= |s|
  {
    IndexOf(s, '=')
  }

  function Problem(ret: int, optopt: int, used: nat): Step {
    Step(Report(ret, None, Some(optopt), None, None), used, "")
  }

  /** The step for long option number i, given its argument. */
  function LongFound(o: LongOption, i: nat, arg: Option<string>, used: nat): Step {
    if o.flag.Some? then Step(Report(0, arg, None, Some(i), Some((o.flag.value, o.val))), used, "")
    else Step(Report(o.val, arg, None, Some(i), None), used, "")
  }

  /**
    process_long_option on `text`, which is what follows the dashes of rest[0]
    or the argument of -W; None is its -1, for "treat it as short options".
   */
  function LongStep(cfg: Config, rest: seq<string>, text: string, longOnly: bool): (s: Option<Step>)
    requires rest != [] && cfg.longopts.Some?
    ensures s.Some? ==> 1 <= s.value.used <= |rest| && s.value.pending == ""
    ensures !longOnly ==> s.Some?
  {
    var opts, n := cfg.longopts.value, NameLength(text);
    match LongMatch(opts, text[..n], longOnly)
    case Ambiguous => Some(Problem('?' as int, 0, 1))
    case NoMatch =>
      if !longOnly || At(rest[0], 1) == '-' || (text != "" && text[0] !in cfg.optstring) then
        Some(Problem('?' as int, 0, 1))
      else None
    case Found(i) =>
      var o := opts[i];
      Some(if n < |text| then
             if o.hasArg != 0 then LongFound(o, i, Some(text[n + 1..]), 1) else Problem('?' as int, o.val, 1)
           else if o.hasArg == 1 then
             if |rest| > 1 then LongFound(o, i, Some(rest[1]), 2) else Problem(cfg.Missing(), o.val, 1)
           else LongFound(o, i, None, 1))
  }

  /** The short option character text[0]; the rest of `text` may be its argument, or pending. */
  function ShortStep(cfg: Config, rest: seq<string>, text: string): (s: Step)
    requires rest != [] && text != ""
    ensures if s.pending == "" then 1 <= s.used <= |rest| else s.used == 0 && |s.pending| < |text|
  {
    var c, tail, k := text[0], text[1..], IndexOf(cfg.optstring, text[0]);
    var used := if tail == "" then 1 else 0;
    if k == |cfg.optstring| || c == ':' || c == ';' then
      Step(Report('?' as int, None, Some(c as int), None, None), used, tail)
    else if c == 'W' && At(cfg.optstring, k + 1) == ';' && cfg.longopts.Some? then
      if tail != "" then LongStep(cfg, rest, tail, false).value
      else if |rest| == 1 then Problem(cfg.Missing(), c as int, 1)
      else
        var s := LongStep(cfg, rest[1..], rest[1], false).value;
        s.(used := s.used + 1)
    else if At(cfg.optstring, k + 1) == ':' then
      var ret := Report(c as int, None, None, None, None);
      if tail != "" then Step(ret.(optarg := Some(tail)), 1, "")
      else if At(cfg.optstring, k + 2) == ':' then Step(ret, 1, "")
      else if |rest| == 1 then Problem(cfg.Missing(), c as int, 1)
      else Step(ret.(optarg := Some(rest[1])), 2, "")
    else Step(Report(c as int, None, None, None, None), used, tail)
  }

  /** The first report of an option element. */
  function ElementStep(cfg: Config, rest: seq<string>): (s: Step)
    requires rest != [] && !IsNonoption(rest[0])
    ensures if s.pending == "" then 1 <= s.used <= |rest| else s.used == 0 && |s.pending| < |rest[0]|
  {
    var elem := rest[0];
    if cfg.longopts.Some? && elem[1] == '-' && LongStep(cfg, rest, elem[2..], cfg.longOnly).Some? then
      LongStep(cfg, rest, elem[2..], cfg.longOnly).value
    else if && cfg.longopts.Some? && elem[1] != '-' && cfg.longOnly && (|elem| > 2 || elem[1] !in cfg.optstring)
            && LongStep(cfg, rest, elem[1..], true).Some? then
      LongStep(cfg, rest, elem[1..], true).value
    else ShortStep(cfg, rest, elem[1..])
  }

  // ------------------------------------------------- what a whole scan means

  /**
    The meaning of the elements still to be scanned: what will be reported,
    and how they split, each part in its original order, into the option
    elements with their arguments (and "--"), and what is left for the caller.
   */
  datatype Plan = Plan(reports: seq<Report>, options: seq<string>, operands: seq<string>)

  /** The plan when `text` is still pending in rest[0]; no pending text means an element boundary. */
  function PlanOf(cfg: Config, rest: seq<string>, text: string): (p: Plan)
    requires text != "" ==> rest != []
    decreases |rest|, if text != "" then |text| else if rest == [] then 0 else |rest[0]| + 1
  {
    if text != "" then
      var s := ShortStep(cfg, rest, text);
      if s.pending != "" then
        var p := PlanOf(cfg, rest, s.pending);
        p.(reports := [s.report] + p.reports)
      else Moved(s, rest, PlanOf(cfg, rest[s.used..], ""))
    else if rest == [] then Plan([], [], [])
    else if rest[0] == "--" then Plan([], ["--"], rest[1..])
    else if IsNonoption(rest[0]) then
      if cfg.ordering == RequireOrder then Plan([], [], rest)
      else
        var p := PlanOf(cfg, rest[1..], "");
        if cfg.ordering == Permute then p.(operands := [rest[0]] + p.operands)
        else Moved(Step(Report(1, Some(rest[0]), None, None, None), 1, ""), rest, p)
    else
      var s := ElementStep(cfg, rest);
      if s.pending != "" then
        var p := PlanOf(cfg, rest, s.pending);
        p.(reports := [s.report] + p.reports)
      else Moved(s, rest, PlanOf(cfg, rest[s.used..], ""))
  }

  /** A report that moves past the first elements, which are options and arguments, before the plan p. */
  function Moved(s: Step, rest: seq<string>, p: Plan): Plan
    requires s.used <= |rest|
  {
    Plan([s.report] + p.reports, rest[..s.used] + p.options, p.operands)
  }

  // ------------------------------------------------- exchange

  /** a[bottom..middle) and a[middle..top) exchanged. */
  ghost function Rotated<T>(a: seq<T>, bottom: nat, middle: nat, top: nat): seq<T>
    requires bottom <= middle <= top <= |a|
  {
    a[..bottom] + a[middle..top] + a[bottom..middle] + a[top..]
  }

  lemma RotatedAt<T>(a: seq<T>, bottom: nat, middle: nat, top: nat)
    requires bottom <= middle <= top <= |a|
    ensures var r := Rotated(a, bottom, middle, top);
            && |r| == |a|
            && forall k {:trigger r[k]} :: 0 <= k < |a| ==>
                 r[k] == if bottom <= k < bottom + (top - middle) then a[k + (middle - bottom)]
                         else if bottom + (top - middle) <= k < top then a[k - (top - middle)]
                         else a[k]
  {}

  /** b is a with the blocks of length len at low and at high swapped. */
  ghost predicate Swapped<T>(a: seq<T>, b: seq<T>, low: nat, high: nat, len: nat) {
    && low + len <= high && high + len <= |a| == |b|
    && forall k {:trigger b[k]} :: 0 <= k < |b| ==>
         b[k] == if low <= k < low + len then a[k + (high - low)]
                 else if high <= k < high + len then a[k - (high - low)]
                 else a[k]
  }

  method SwapBlocks(argv: array<string>, low: nat, high: nat, len: nat)
    requires low + len <= high && high + len <= argv.Length
    modifies argv
    ensures Swapped(old(argv[..]), argv[..], low, high, len)
  {
    for i := 0 to len
      invariant Swapped(old(argv[..]), argv[..], low, high, i)
    {
      var tem := argv[low + i];
      argv[low + i] := argv[high + i];
      argv[high + i] := tem;
    }
  }

  /** The shorter bottom block, swapped with the far end of the top block, is in its place. */
  lemma ShortBottom<T>(a: seq<T>, b: seq<T>, bottom: nat, middle: nat, top: nat)
    requires bottom <= middle && middle - bottom <= top - middle
    requires Swapped(a, b, bottom, top - (middle - bottom), middle - bottom)
    ensures Rotated(b, bottom, middle, top - (middle - bottom)) == Rotated(a, bottom, middle, top)
  {
    RotatedAt(a, bottom, middle, top);
    RotatedAt(b, bottom, middle, top - (middle - bottom));
  }

  /** The shorter top block, swapped with the near end of the bottom block, is in its place. */
  lemma ShortTop<T>(a: seq<T>, b: seq<T>, bottom: nat, middle: nat, top: nat)
    requires middle <= top && top - middle <= middle - bottom
    requires Swapped(a, b, bottom, middle, top - middle)
    ensures Rotated(b, bottom + (top - middle), middle, top) == Rotated(a, bottom, middle, top)
  {
    RotatedAt(a, bottom, middle, top);
    RotatedAt(b, bottom + (top - middle), middle, top);
  }

  lemma NothingToRotate<T>(a: seq<T>, bottom: nat, middle: nat, top: nat)
    requires bottom <= middle <= top <= |a| && (bottom == middle || middle == top)
    ensures Rotated(a, bottom, middle, top) == a
  {}

  lemma RotatedIs<T>(a: seq<T>, bottom: nat, middle: nat, top: nat)
    requires bottom <= middle <= top <= |a|
    ensures Rotated(a, bottom, middle, top) == a[..bottom] + a[middle..top] + a[bottom..middle] + a[top..]
  {}

  lemma RotatedIsPermutation<T>(a: seq<T>, bottom: nat, middle: nat, top: nat)
    requires bottom <= middle <= top <= |a|
    ensures multiset(Rotated(a, bottom, middle, top)) == multiset(a)
  {
    hide Rotated;
    assert Rotated(a, bottom, middle, top) == a[..bottom] + a[middle..top] + a[bottom..middle] + a[top..]
      by { RotatedIs(a, bottom, middle, top); }
    assert a == a[..bottom] + a[bottom..middle] + a[middle..top] + a[top..];
  }

  // ------------------------------------------------- one turn of a plan

  lemma PlanMoved(cfg: Config, rest: seq<string>, text: string, s: Step)
    requires rest != []
    requires if text != "" then s == ShortStep(cfg, rest, text)
             else !IsNonoption(rest[0]) && rest[0] != "--" && s == ElementStep(cfg, rest)
    ensures PlanOf(cfg, rest, text)
            == if s.pending == "" then Moved(s, rest, PlanOf(cfg, rest[s.used..], ""))
               else var p := PlanOf(cfg, rest, s.pending); p.(reports := [s.report] + p.reports)
  {}

  lemma PlanNonoption(cfg: Config, rest: seq<string>)
    requires rest != [] && IsNonoption(rest[0])
    ensures PlanOf(cfg, rest, "")
            == if cfg.ordering == RequireOrder then Plan([], [], rest)
               else
                 var p := PlanOf(cfg, rest[1..], "");
                 if cfg.ordering == Permute then p.(operands := [rest[0]] + p.operands)
                 else Moved(Step(Report(1, Some(rest[0]), None, None, None), 1, ""), rest, p)
  {}

  lemma PlanEnd(cfg: Config, rest: seq<string>)
    requires rest == [] || rest[0] == "--"
    ensures PlanOf(cfg, rest, "") == if rest == [] then Plan([], [], []) else Plan([], ["--"], rest[1..])
  {}

  function ConfigOf(optstring: string, longopts: Option<seq<LongOption>>,
                    longOnly: bool, posixlyCorrect: bool): Config {
    if At(optstring, 0) == '-' then Config(ReturnInOrder, optstring[1..], longopts, longOnly)
    else if At(optstring, 0) == '+' then Config(RequireOrder, optstring[1..], longopts, longOnly)
    else Config(if posixlyCorrect then RequireOrder else Permute, optstring, longopts, longOnly)
  }

  /**
    a[start..p] holds the options scanned so far, a[first..last] apart, which
    holds the non-options skipped; with the plan for the rest they make `total`.
   */
  ghost predicate Splits(a: seq<string>, start: nat, first: nat, last: nat, p: nat, plan: Plan, total: Plan) {
    && start <= first <= last <= p <= |a|
    && total.options == a[start..first] + a[last..p] + plan.options
    && total.operands == a[first..last] + plan.operands
  }

  lemma SplitsAtStart(a: seq<string>, start: nat, total: Plan)
    requires start <= |a|
    ensures Splits(a, start, start, start, start, total, total)
  {}

  lemma SplitsBounds(a: seq<string>, start: nat, first: nat, last: nat, p: nat, plan: Plan, total: Plan)
    requires Splits(a, start, first, last, p, plan, total)
    ensures start <= first <= last <= p <= |a|
  {}

  lemma SplitsMoved(a: seq<string>, start: nat, first: nat, last: nat, p: nat, s: Step, plan: Plan, total: Plan)
    requires p + s.used <= |a|
    requires Splits(a, start, first, last, p, Moved(s, a[p..], plan), total)
    ensures Splits(a, start, first, last, p + s.used, plan, total)
  {
    assert a[last..p + s.used] == a[last..p] + a[p..][..s.used];
    JoinAround(a[start..first], a[last..p], a[p..][..s.used], plan.options);
  }

  lemma JoinAround(x: seq<string>, y: seq<string>, z: seq<string>, t: seq<string>)
    ensures x + y + (z + t) == x + (y + z) + t
  {}

  /** Without skipped non-options, the options scanned are one block. */
  lemma SplitsJoined(a: seq<string>, start: nat, first: nat, p: nat, plan: Plan, total: Plan)
    requires Splits(a, start, first, first, p, plan, total)
    ensures Splits(a, start, p, p, p, plan, total)
  {
    assert a[start..p] == a[start..first] + a[first..p];
    assert a[p..p] == a[first..first] == [];
  }

  /** With nothing left to scan, the non-options skipped head the operands. */
  lemma SplitsFinished(a: seq<string>, start: nat, first: nat, p: nat, total: Plan)
    requires p <= |a| && Splits(a, start, first, p, p, Plan([], [], a[p..]), total)
    ensures a[start..first] == total.options && a[first..] == total.operands
  {
    assert a[first..] == a[first..p] + a[p..];
  }

  /** "--" counts as an option, and all that follows it as operands. */
  lemma SplitsDashes(a: seq<string>, start: nat, first: nat, last: nat, p: nat, total: Plan)
    requires 0 < p <= |a| && a[p - 1] == "--"
    requires Splits(a, start, first, last, p - 1, Plan([], ["--"], a[p..]), total)
    ensures Splits(a, start, first, last, p, Plan([], [], a[p..]), total)
  {
    assert a[last..p] == a[last..p - 1] + ["--"];
  }

  /** A skipped non-option joins those before it. */
  lemma SplitsSkipped(a: seq<string>, start: nat, first: nat, p: nat, plan: Plan, total: Plan)
    requires p < |a|
    requires Splits(a, start, first, p, p, plan.(operands := [a[p]] + plan.operands), total)
    ensures Splits(a, start, first, p + 1, p + 1, plan, total)
  {
    assert a[p..p] == a[p + 1..p + 1] == [];
    assert a[first..p + 1] == a[first..p] + [a[p]];
  }

  /** The exchange brings all options scanned so far together, and the skipped non-options behind them. */
  lemma SplitsRotated(a: seq<string>, start: nat, first: nat, last: nat, p: nat, plan: Plan, total: Plan)
    requires Splits(a, start, first, last, p, plan, total)
    ensures Splits(Rotated(a, first, last, p), start, first + (p - last), p, p, plan, total)
    ensures var r := Rotated(a, first, last, p);
            && r[..start] == a[..start] && r[p..] == a[p..]
            && r[first + (p - last)..p] == a[first..last]
  {
    var r, f := Rotated(a, first, last, p), first + (p - last);
    assert r[start..f] == a[start..first] + a[last..p];
    assert r[p..p] == [];
  }

  /** What "--" at p leaves: with the exchange, and already without it when nothing was skipped. */
  lemma DashesEnd(a: seq<string>, cfg: Config, start: nat, first: nat, last: nat, p: nat, total: Plan)
    requires start <= first <= last <= p < |a| && a[p] == "--"
    requires Splits(a, start, first, last, p, PlanOf(cfg, a[p..], ""), total)
    ensures PlanOf(cfg, a[p..], "").reports == []
    ensures var r, f := Rotated(a, first, last, p + 1), first + (p + 1 - last);
            && r[..start] == a[..start] && multiset(r) == multiset(a)
            && r[start..f] == total.options && r[f..] == total.operands
  {
    hide PlanOf, Splits, Rotated;
    PlanEnd(cfg, a[p..]);
    assert a[p..][1..] == a[p + 1..];
    SplitsDashes(a, start, first, last, p + 1, total);
    var plan := Plan([], [], a[p + 1..]);
    SplitsRotated(a, start, first, last, p + 1, plan, total);
    RotatedIsPermutation(a, first, last, p + 1);
    SplitsFinished(Rotated(a, first, last, p + 1), start, first + (p + 1 - last), p + 1, total);
  }

  lemma DashesJoined(a: seq<string>, cfg: Config, start: nat, first: nat, p: nat, total: Plan)
    requires start <= first <= p < |a| && a[p] == "--"
    requires Splits(a, start, first, first, p, PlanOf(cfg, a[p..], ""), total)
    ensures a[start..p + 1] == total.options && a[p + 1..] == total.operands
  {
    hide PlanOf, Splits;
    PlanEnd(cfg, a[p..]);
    assert a[p..][1..] == a[p + 1..];
    SplitsDashes(a, start, first, first, p + 1, total);
    SplitsJoined(a, start, first, p + 1, Plan([], [], a[p + 1..]), total);
    SplitsFinished(a, start, p + 1, p + 1, total);
  }

  /** A report moves the scan on by what it used, and heads the reports still to come. */
  lemma SplitsStep(a: seq<string>, cfg: Config, start: nat, first: nat, last: nat, p: nat, text: string, s: Step,
                   total: Plan)
    requires p < |a| && Splits(a, start, first, last, p, PlanOf(cfg, a[p..], text), total)
    requires if text != "" then s == ShortStep(cfg, a[p..], text)
             else !IsNonoption(a[p]) && a[p] != "--" && s == ElementStep(cfg, a[p..])
    ensures p + s.used <= |a| && (s.pending != "" ==> p + s.used < |a|)
    ensures var plan := PlanOf(cfg, a[p + s.used..], s.pending);
            && Splits(a, start, first, last, p + s.used, plan, total)
            && PlanOf(cfg, a[p..], text).reports == [s.report] + plan.reports
  {
    hide PlanOf, ShortStep, ElementStep;
    PlanMoved(cfg, a[p..], text, s);
    if s.pending == "" {
      assert a[p..][s.used..] == a[p + s.used..];
      SplitsMoved(a, start, first, last, p, s, PlanOf(cfg, a[p + s.used..], ""), total);
    }
  }

  // ------------------------------------------------- the scanner

  /** `struct _getopt_data`, with the variables behind `longind` and the options' `flag` pointers. */
  class Scanner {
    var optind: nat
    var optopt: int
    var optarg: Option<string>
    var initialized: bool
    var nextchar: Option<string>
    var ordering: Ordering
    var firstNonopt: nat
    var lastNonopt: nat
    var longind: nat
    var flags: map<nat, int>

    constructor ()
      ensures optind == 1 && !initialized
    {
      optind, optopt, optarg, initialized := 1, '?' as int, None, false;
      nextchar, ordering, firstNonopt, lastNonopt := None, Permute, 0, 0;
      longind, flags := 0, map[];
    }

    /** The text still to be read in the element at optind. */
    function Pending(): string
      reads this
    {
      match nextchar case None => "" case Some(t) => t
    }

    /** exchange: the options scanned since change places with the non-options before them. */
    method Exchange(argv: array<string>)
      requires firstNonopt <= lastNonopt <= optind <= argv.Length
      modifies argv, this`firstNonopt, this`lastNonopt
      ensures argv[..] == Rotated(old(argv[..]), old(firstNonopt), old(lastNonopt), optind)
      ensures firstNonopt == old(firstNonopt) + (optind - old(lastNonopt)) && lastNonopt == optind
    {
      hide Rotated, Swapped;
      var bottom: nat, middle: nat, top: nat := firstNonopt, lastNonopt, optind;
      ghost var target := Rotated(argv[..], bottom, middle, top);
      while top > middle && middle > bottom
        invariant bottom <= middle <= top <= optind
        invariant firstNonopt == old(firstNonopt) && lastNonopt == old(lastNonopt)
        invariant Rotated(argv[..], bottom, middle, top) == target
        decreases top - bottom
      {
        ghost var a := argv[..];
        if top - middle > middle - bottom {
          var len := middle - bottom;
          SwapBlocks(argv, bottom, top - (middle - bottom), len);
          ShortBottom(a, argv[..], bottom, middle, top);
          top := top - len;
        } else {
          var len := top - middle;
          SwapBlocks(argv, bottom, middle, len);
          ShortTop(a, argv[..], bottom, middle, top);
          bottom := bottom + len;
        }
      }
      NothingToRotate(argv[..], bottom, middle, top);
      firstNonopt := firstNonopt + (optind - lastNonopt);
      lastNonopt := optind;
    }

    /** What the scan will still report, and how the elements from optind on will split. */
    ghost function Left(argv: array<string>, cfg: Config): Plan
      requires optind <= argv.Length && (Pending() != "" ==> optind < argv.Length)
      reads this, argv
    {
      PlanOf(cfg, argv[optind..], Pending())
    }

    /**
      The state between calls: the options scanned so far surround the
      non-options skipped, and with what is left they make up the whole plan.
     */
    ghost predicate Scanning(argv: array<string>, cfg: Config, start: nat, total: Plan)
      reads this, argv
    {
      && initialized && ordering == cfg.ordering
      && 1 <= start <= firstNonopt <= lastNonopt <= optind <= argv.Length
      && (Pending() != "" ==> optind < argv.Length)
      && (cfg.ordering != Permute ==> firstNonopt == lastNonopt)
      && (forall k :: firstNonopt <= k < lastNonopt ==> IsNonoption(argv[k]))
      && Splits(argv[..], start, firstNonopt, lastNonopt, optind, Left(argv, cfg), total)
    }

    /** The state after -1: options, then operands, each in their original order, with optind between them. */
    ghost predicate Finished(argv: array<string>, start: nat, total: Plan)
      reads this, argv
    {
      && start <= optind <= argv.Length
      && argv[start..optind] == total.options && argv[optind..] == total.operands
    }

    /** The effects of a report on the variables of the caller. */
    twostate predicate Reported(r: Report)
      reads this
    {
      && optarg == r.optarg
      && optopt == (if r.optopt.Some? then r.optopt.value else old(optopt))
      && longind == (if r.longind.Some? then r.longind.value else old(longind))
      && flags == if r.flag.Some? then old(flags)[r.flag.value.0 := r.flag.value.1] else old(flags)
    }

    /** process_long_option */
    method ProcessLongOption(argv: array<string>, cfg: Config, longOnly: bool) returns (code: int)
      requires cfg.longopts.Some? && cfg.Valid()
      requires nextchar.Some? && optind < argv.Length && optarg == None
      modifies this`optind, this`nextchar, this`optarg, this`optopt, this`longind, this`flags
      ensures var s := LongStep(cfg, argv[old(optind)..], old(nextchar.value), longOnly);
              if s.None? then code == -1 && unchanged(this)
              else && code == s.value.report.ret != -1 && optind == old(optind) + s.value.used
                   && Pending() == "" && Reported(s.value.report)
    {
      hide LongMatch, IndexOf;
      var text, opts := nextchar.value, cfg.longopts.value;
      var nameend := StrChr(text, '=');
      var name := text[..nameend];
      var found := SearchLong(opts, name, longOnly);
      if found.Ambiguous? {
        nextchar, optind, optopt := Some(""), optind + 1, 0;
        return '?' as int;
      }
      if found.NoMatch? {
        if !longOnly || At(argv[optind], 1) == '-' || (text != "" && text[0] !in cfg.optstring) {
          nextchar, optind, optopt := None, optind + 1, 0;
          return '?' as int;
        }
        return -1;
      }
      var o := opts[found.index];
      assert o in opts;
      optind, nextchar := optind + 1, None;
      if nameend < |text| {
        if o.hasArg != 0 {
          optarg := Some(text[nameend + 1..]);
        } else {
          optopt := o.val;
          return '?' as int;
        }
      } else if o.hasArg == 1 {
        if optind < argv.Length {
          optarg, optind := Some(argv[optind]), optind + 1;
        } else {
          optopt := o.val;
          return cfg.Missing();
        }
      }
      longind := found.index;
      if o.flag.Some? {
        flags := flags[o.flag.value := o.val];
        return 0;
      }
      return o.val;
    }

    /** -W with a long option as its argument, in the same element or in the next. */
    method DashW(argv: array<string>, cfg: Config, ghost rest: seq<string>) returns (code: int)
      requires cfg.longopts.Some? && cfg.Valid() && optarg == None && nextchar.Some?
      requires rest != [] && optind <= argv.Length
      requires if Pending() != "" then optind < argv.Length && rest == argv[optind..]
               else 1 <= optind && rest == argv[optind - 1..]
      modifies this`optind, this`nextchar, this`optarg, this`optopt, this`longind, this`flags
      ensures var s := if old(Pending()) != "" then LongStep(cfg, rest, old(Pending()), false).value
                       else if |rest| == 1 then Problem(cfg.Missing(), 'W' as int, 0)
                       else LongStep(cfg, rest[1..], rest[1], false).value;
              && code == s.report.ret != -1 && optind == old(optind) + s.used
              && Pending() == "" && Reported(s.report)
    {
      hide LongStep, Config.Valid;
      if Pending() != "" {
        optarg := nextchar;
      } else if optind == argv.Length {
        optopt := 'W' as int;
        return cfg.Missing();
      } else {
        optarg := Some(argv[optind]);
        assert rest[1..] == argv[optind..];
      }
      nextchar, optarg := optarg, None;
      code := ProcessLongOption(argv, cfg, false);
    }

    /** The short option character at nextchar. */
    method ShortOption(argv: array<string>, cfg: Config) returns (code: int)
      requires cfg.Valid() && Pending() != "" && optind < argv.Length && optarg == None
      modifies this`optind, this`nextchar, this`optarg, this`optopt, this`longind, this`flags
      ensures var s := ShortStep(cfg, argv[old(optind)..], old(Pending()));
              && code == s.report.ret != -1 && optind == old(optind) + s.used
              && Pending() == s.pending && Reported(s.report)
    {
      hide LongStep, First, Config.Valid, IndexOf;
      var text := nextchar.value;
      var c := text[0];
      nextchar := Some(text[1..]);
      var k := StrChr(cfg.optstring, c);
      ghost var rest := argv[optind..];
      if |text| == 1 {
        optind := optind + 1;
      }
      if k == |cfg.optstring| || c == ':' || c == ';' {
        optopt := c as int;
        return '?' as int;
      }
      if c == 'W' && At(cfg.optstring, k + 1) == ';' && cfg.longopts.Some? {
        code := DashW(argv, cfg, rest);
        return;
      }
      code := c as int;
      if At(cfg.optstring, k + 1) == ':' {
        if At(cfg.optstring, k + 2) == ':' {
          if |text| > 1 {
            optarg, optind := nextchar, optind + 1;
          } else {
            optarg := None;
          }
          nextchar := None;
        } else {
          if |text| > 1 {
            optarg, optind := nextchar, optind + 1;
          } else if optind == argv.Length {
            optopt := c as int;
            code := cfg.Missing();
          } else {
            optarg, optind := Some(argv[optind]), optind + 1;
          }
          nextchar := None;
        }
      }
    }

    /** Between elements, in PERMUTE mode: brings the options scanned so far together. */
    method Regroup(argv: array<string>, ghost cfg: Config, ghost start: nat, ghost total: Plan)
      requires Scanning(argv, cfg, start, total) && Pending() == ""
      modifies argv, this`firstNonopt, this`lastNonopt
      ensures firstNonopt <= optind
      ensures forall k :: firstNonopt <= k < optind ==> IsNonoption(argv[k])
      ensures Splits(argv[..], start, firstNonopt, optind, optind, Left(argv, cfg), total)
      ensures argv[..start] == old(argv[..start]) && multiset(argv[..]) == old(multiset(argv[..]))
      ensures argv[optind..] == old(argv[optind..])
    {
      hide PlanOf, Rotated, Splits, IsNonoption;
      ghost var a, plan := argv[..], Left(argv, cfg);
      SplitsBounds(a, start, firstNonopt, lastNonopt, optind, plan, total);
      if firstNonopt != lastNonopt && lastNonopt != optind {
        SplitsRotated(a, start, firstNonopt, lastNonopt, optind, plan, total);
        RotatedIsPermutation(a, firstNonopt, lastNonopt, optind);
        Exchange(argv);
        assert argv[optind..] == a[optind..] && Left(argv, cfg) == plan;
        assert forall k :: firstNonopt <= k < optind ==> argv[k] == argv[firstNonopt..optind][k - firstNonopt];
      } else if lastNonopt != optind {
        SplitsJoined(a, start, firstNonopt, optind, plan, total);
        firstNonopt := optind;
      }
    }

    /** Then skips to the next option, and records the non-options skipped. */
    method Skip(argv: array<string>, ghost cfg: Config, ghost start: nat, ghost total: Plan)
      requires cfg.ordering == Permute && initialized && ordering == Permute && Pending() == ""
      requires 1 <= start && firstNonopt <= optind <= argv.Length
      requires forall k :: firstNonopt <= k < optind ==> IsNonoption(argv[k])
      requires Splits(argv[..], start, firstNonopt, optind, optind, Left(argv, cfg), total)
      modifies this`optind, this`lastNonopt
      ensures Scanning(argv, cfg, start, total) && lastNonopt == optind
      ensures optind == argv.Length || !IsNonoption(argv[optind])
      ensures old(optind) <= optind && Left(argv, cfg).reports == old(Left(argv, cfg).reports)
    {
      hide PlanOf, Splits, IsNonoption;
      SplitsBounds(argv[..], start, firstNonopt, optind, optind, Left(argv, cfg), total);
      while optind < argv.Length && IsNonoption(argv[optind])
        invariant start <= firstNonopt <= old(optind) <= optind <= argv.Length
        invariant forall k :: firstNonopt <= k < optind ==> IsNonoption(argv[k])
        invariant Splits(argv[..], start, firstNonopt, optind, optind, Left(argv, cfg), total)
        invariant Left(argv, cfg).reports == old(Left(argv, cfg).reports)
      {
        ghost var rest := argv[optind..];
        PlanNonoption(cfg, rest);
        assert rest[1..] == argv[optind + 1..];
        SplitsSkipped(argv[..], start, firstNonopt, optind, PlanOf(cfg, rest[1..], ""), total);
        optind := optind + 1;
      }
      lastNonopt := optind;
    }

    /** "--" is skipped like an option, and everything after it like a non-option. */
    method TakeDashes(argv: array<string>, ghost cfg: Config, ghost start: nat, ghost total: Plan)
      requires start <= firstNonopt <= lastNonopt <= optind < argv.Length && argv[optind] == "--"
      requires Splits(argv[..], start, firstNonopt, lastNonopt, optind, PlanOf(cfg, argv[optind..], ""), total)
      modifies argv, this`optind, this`firstNonopt, this`lastNonopt
      ensures start <= firstNonopt <= lastNonopt == optind == argv.Length
      ensures argv[start..firstNonopt] == total.options && argv[firstNonopt..] == total.operands
      ensures argv[..start] == old(argv[..start]) && multiset(argv[..]) == old(multiset(argv[..]))
      ensures PlanOf(cfg, old(argv[optind..]), "").reports == []
    {
      hide Rotated, Splits, PlanOf;
      DashesEnd(argv[..], cfg, start, firstNonopt, lastNonopt, optind, total);
      if firstNonopt == lastNonopt { DashesJoined(argv[..], cfg, start, firstNonopt, optind, total); }
      optind := optind + 1;
      if firstNonopt != lastNonopt && lastNonopt != optind {
        Exchange(argv);
      } else if firstNonopt == lastNonopt {
        firstNonopt := optind;
      }
      lastNonopt := argv.Length;
      optind := argv.Length;
    }

    /** "--" or the end of argv ends the scan: back over the non-options skipped. */
    method StopAtEnd(argv: array<string>, ghost cfg: Config, ghost start: nat, ghost total: Plan) returns (stop: bool)
      requires Scanning(argv, cfg, start, total) && Pending() == ""
      requires cfg.ordering == Permute ==> lastNonopt == optind
      modifies argv, this`optind, this`firstNonopt, this`lastNonopt
      ensures stop ==> Finished(argv, start, total) && old(Left(argv, cfg)).reports == []
      ensures argv[..start] == old(argv[..start]) && multiset(argv[..]) == old(multiset(argv[..]))
      ensures !stop ==> && unchanged(argv) && unchanged(this)
                        && optind < argv.Length && argv[optind] != "--"
    {
      hide Splits, PlanOf, IsNonoption;
      if optind != argv.Length && argv[optind] == "--" {
        TakeDashes(argv, cfg, start, total);
      } else if optind == argv.Length {
        ghost var a := argv[..];
        PlanEnd(cfg, a[optind..]);
        if firstNonopt == lastNonopt { SplitsJoined(a, start, firstNonopt, optind, Plan([], [], []), total); }
        SplitsFinished(a, start, if firstNonopt == lastNonopt then optind else firstNonopt, optind, total);
      }
      if optind == argv.Length {
        if firstNonopt != lastNonopt {
          optind := firstNonopt;
        }
        return true;
      }
      stop := false;
    }

    /** An option element, from its first character. */
    method Element(argv: array<string>, cfg: Config) returns (code: int)
      requires cfg.Valid() && Pending() == "" && optind < argv.Length && optarg == None
      requires !IsNonoption(argv[optind])
      modifies this`optind, this`nextchar, this`optarg, this`optopt, this`longind, this`flags
      ensures var s := ElementStep(cfg, argv[old(optind)..]);
              && code == s.report.ret != -1 && optind == old(optind) + s.used
              && Pending() == s.pending && Reported(s.report)
    {
      hide LongStep, ShortStep, Config.Valid;
      var elem := argv[optind];
      if cfg.longopts.Some? {
        if elem[1] == '-' {
          nextchar := Some(elem[2..]);
          code := ProcessLongOption(argv, cfg, cfg.longOnly);
          if code != -1 {
            return;
          }
        } else if cfg.longOnly && (|elem| > 2 || elem[1] !in cfg.optstring) {
          nextchar := Some(elem[1..]);
          code := ProcessLongOption(argv, cfg, true);
          if code != -1 {
            return;
          }
        }
      }
      nextchar := Some(elem[1..]);
      code := ShortOption(argv, cfg);
    }

    /** _getopt_initialize; the lookup of POSIXLY_CORRECT is part of `posixlyCorrect`. */
    method Initialize(argv: array<string>, optstring: string, posixlyCorrect: bool,
                      ghost cfg: Config, ghost total: Plan)
      returns (rest: string)
      requires cfg == ConfigOf(optstring, cfg.longopts, cfg.longOnly, posixlyCorrect)
      requires optind <= argv.Length && 1 <= argv.Length
      requires total == PlanOf(cfg, argv[(if optind == 0 then 1 else optind)..], "")
      modifies this`optind, this`firstNonopt, this`lastNonopt, this`nextchar, this`ordering, this`initialized
      ensures old(optind) <= optind && optind > 0 && Pending() == ""
      ensures Scanning(argv, cfg, if old(optind) == 0 then 1 else old(optind), total)
      ensures rest == cfg.optstring && Left(argv, cfg) == total
    {
      rest := optstring;
      if optind == 0 {
        optind := 1;
      }
      firstNonopt, lastNonopt, nextchar := optind, optind, None;
      if At(optstring, 0) == '-' {
        ordering, rest := ReturnInOrder, optstring[1..];
      } else if At(optstring, 0) == '+' {
        ordering, rest := RequireOrder, optstring[1..];
      } else if posixlyCorrect {
        ordering := RequireOrder;
      } else {
        ordering := Permute;
      }
      initialized := true;
      hide PlanOf, Splits;
      SplitsAtStart(argv[..], optind, total);
    }

    /** What a call relies on: the first call finds the whole plan ahead, a later one the state the last call left. */
    ghost predicate Ready(argv: array<string>, cfg: Config, start: nat, total: Plan)
      reads this, argv
    {
      if initialized && optind != 0 then Scanning(argv, cfg, start, total)
      else && start == (if optind == 0 then 1 else optind) <= argv.Length
           && total == PlanOf(cfg, argv[start..], "")
    }

    ghost function ToReport(argv: array<string>, cfg: Config, start: nat, total: Plan): seq<Report>
      requires Ready(argv, cfg, start, total)
      reads this, argv
    {
      if initialized && optind != 0 then Left(argv, cfg).reports else total.reports
    }

    /** The text of the current element that is still unread. */
    ghost function Unread(argv: array<string>): nat
      reads this, argv
    {
      if initialized && Pending() != "" then |Pending()| else if optind < argv.Length then |argv[optind]| else 0
    }

    /** The outcome of a call: the next of the reports that were due, with progress, or the end of the scan. */
    twostate predicate Advanced(argv: array<string>, cfg: Config, start: nat, total: Plan, due: seq<Report>, code: int)
      reads this, argv
    {
      if due == [] then code == -1 && Finished(argv, start, total)
      else && code == due[0].ret != -1 && Reported(due[0])
           && Scanning(argv, cfg, start, total) && Left(argv, cfg).reports == due[1..]
           && (old(optind) < optind || (old(optind) == optind && |Pending()| < old(Unread(argv))))
    }

    /** Between elements: arranges argv, and stops the scan or comes to an element to report on. */
    method Settle(argv: array<string>, ghost cfg: Config, ghost start: nat, ghost total: Plan) returns (stop: bool)
      requires Scanning(argv, cfg, start, total) && Pending() == ""
      modifies argv, this`optind, this`firstNonopt, this`lastNonopt
      ensures argv[..start] == old(argv[..start]) && multiset(argv[..]) == old(multiset(argv[..]))
      ensures stop ==> Finished(argv, start, total) && old(Left(argv, cfg)).reports == []
      ensures !stop ==> && Scanning(argv, cfg, start, total) && optind < argv.Length && argv[optind] != "--"
                        && (cfg.ordering == Permute ==> !IsNonoption(argv[optind]))
                        && Left(argv, cfg).reports == old(Left(argv, cfg).reports)
                        && old(optind) <= optind && argv[old(optind)] == old(argv[optind])
    {
      hide PlanOf, Splits, IsNonoption;
      lastNonopt, firstNonopt := Min(lastNonopt, optind), Min(firstNonopt, optind);
      if ordering == Permute {
        ghost var unread := argv[optind..];
        Regroup(argv, cfg, start, total);
        assert argv[optind..] == unread;
        Skip(argv, cfg, start, total);
      }
      stop := StopAtEnd(argv, cfg, start, total);
    }

    /** A non-option that is not permuted: it stops the scan, or is reported as option character 1. */
    method Operand(argv: array<string>, cfg: Config, ghost start: nat, ghost total: Plan) returns (code: int)
      requires Scanning(argv, cfg, start, total) && Pending() == "" && optind < argv.Length
      requires cfg.ordering != Permute && IsNonoption(argv[optind]) && optarg == None
      modifies this`optind, this`optarg
      ensures Advanced(argv, cfg, start, total, old(Left(argv, cfg).reports), code)
    {
      hide PlanOf, Splits, IsNonoption;
      ghost var p, rest := optind, argv[optind..];
      PlanNonoption(cfg, rest);
      if ordering == RequireOrder {
        SplitsJoined(argv[..], start, firstNonopt, p, Plan([], [], rest), total);
        SplitsFinished(argv[..], start, p, p, total);
        return -1;
      }
      optarg := Some(argv[optind]);
      optind := optind + 1;
      assert rest[1..] == argv[optind..];
      SplitsMoved(argv[..], start, firstNonopt, lastNonopt, p, Step(Report(1, optarg, None, None, None), 1, ""),
                  PlanOf(cfg, rest[1..], ""), total);
      code := 1;
    }

    /** The body of _getopt_internal_r in the middle of a scan. */
    method Scan(argv: array<string>, cfg: Config, ghost start: nat, ghost total: Plan) returns (code: int)
      requires cfg.Valid() && Scanning(argv, cfg, start, total) && optarg == None
      modifies this, argv
      ensures argv[..start] == old(argv[..start]) && multiset(argv[..]) == old(multiset(argv[..]))
      ensures Advanced(argv, cfg, start, total, old(Left(argv, cfg).reports), code)
    {
      hide PlanOf, Splits, ShortStep, ElementStep, Config.Valid, IsNonoption;
      if Pending() == "" {
        var stop := Settle(argv, cfg, start, total);
        if stop {
          return -1;
        }
        if IsNonoption(argv[optind]) {
          code := Operand(argv, cfg, start, total);
          return;
        }
        ghost var p, s := optind, ElementStep(cfg, argv[optind..]);
        SplitsStep(argv[..], cfg, start, firstNonopt, lastNonopt, p, "", s, total);
        code := Element(argv, cfg);
      } else {
        ghost var p, s := optind, ShortStep(cfg, argv[optind..], Pending());
        SplitsStep(argv[..], cfg, start, firstNonopt, lastNonopt, p, Pending(), s, total);
        code := ShortOption(argv, cfg);
      }
    }

    /** The beginning of _getopt_internal_r: initializes if necessary, and drops the leading '-' or '+'. */
    method Enter(argv: array<string>, optstring: string, longopts: Option<seq<LongOption>>, longOnly: bool,
                 posixlyCorrect: bool, ghost start: nat, ghost total: Plan) returns (cfg: Config)
      requires argv.Length >= 1
      requires Ready(argv, ConfigOf(optstring, longopts, longOnly, posixlyCorrect), start, total)
      modifies this`optind, this`firstNonopt, this`lastNonopt, this`nextchar, this`ordering
      modifies this`initialized, this`optarg
      ensures cfg == ConfigOf(optstring, longopts, longOnly, posixlyCorrect)
      ensures optarg == None && Scanning(argv, cfg, start, total)
      ensures Left(argv, cfg).reports == old(ToReport(argv, cfg, start, total))
      ensures old(optind) < optind || (old(optind) == optind && Unread(argv) <= old(Unread(argv)))
    {
      hide PlanOf, Splits, IsNonoption;
      optarg := None;
      var rest := optstring;
      if optind == 0 || !initialized {
        ghost var c := ConfigOf(optstring, longopts, longOnly, posixlyCorrect);
        rest := Initialize(argv, optstring, posixlyCorrect, c, total);
      } else if At(optstring, 0) == '-' || At(optstring, 0) == '+' {
        rest := optstring[1..];
      }
      cfg := Config(ordering, rest, longopts, longOnly);
    }

    /** `due` are the reports still to come, before the first call or between calls. */
    ghost predicate Due(argv: array<string>, cfg: Config, start: nat, total: Plan, due: seq<Report>)
      reads this, argv
    {
      Ready(argv, cfg, start, total) && ToReport(argv, cfg, start, total) == due
    }

    /**
      _getopt_internal_r, called again and again without interference: each
      call gives the next report that is due, until -1 leaves argv as the plan
      says with optind at the first operand.
     */
    method GetoptInternal(argv: array<string>, optstring: string, longopts: Option<seq<LongOption>>, longOnly: bool,
                          posixlyCorrect: bool, ghost start: nat, ghost total: Plan, ghost due: seq<Report>)
      returns (code: int)
      requires ConfigOf(optstring, longopts, longOnly, posixlyCorrect).Valid()
      requires argv.Length >= 1 ==>
                 Due(argv, ConfigOf(optstring, longopts, longOnly, posixlyCorrect), start, total, due)
      modifies this, argv
      ensures argv.Length < 1 ==> code == -1 && unchanged(this)
      ensures argv.Length >= 1 ==> argv[..start] == old(argv[..start]) && multiset(argv[..]) == old(multiset(argv[..]))
      ensures argv.Length >= 1 && due == [] ==> code == -1 && Finished(argv, start, total)
      ensures argv.Length >= 1 && due != [] ==>
                && code == due[0].ret != -1 && Reported(due[0])
                && Due(argv, ConfigOf(optstring, longopts, longOnly, posixlyCorrect), start, total, due[1..])
                && (old(optind) < optind || (old(optind) == optind && |Pending()| < old(Unread(argv))))
    {
      hide PlanOf, Splits, IsNonoption, ConfigOf, Config.Valid;
      if argv.Length < 1 {
        return -1;
      }
      var cfg := Enter(argv, optstring, longopts, longOnly, posixlyCorrect, start, total);
      code := Scan(argv, cfg, start, total);
    }
  }

  /** The two searches of process_long_option: for an exact match, then for an unambiguous abbreviation. */
  method SearchLong(opts: seq<LongOption>, name: string, longOnly: bool) returns (found: Match)
    ensures found == LongMatch(opts, name, longOnly)
    ensures found.Found? ==> found.index < |opts|
  {
    var p := 0;
    while p < |opts|
      invariant 0 <= p <= |opts| && forall k :: 0 <= k < p ==> opts[k].name != name
    {
      if opts[p].name == name {
        return Found(p);
      }
      p := p + 1;
    }
    var pfound, ambiguous := -1, false;
    p := 0;
    while p < |opts|
      invariant 0 <= p <= |opts| && -1 <= pfound < p
      invariant pfound == -1 ==> !ambiguous && forall k :: 0 <= k < p ==> !(name <= opts[k].name)
      invariant pfound != -1 ==> name <= opts[pfound].name && forall k :: 0 <= k < pfound ==> !(name <= opts[k].name)
      invariant pfound != -1 ==>
                  (ambiguous <==> exists k :: pfound < k < p && name <= opts[k].name
                                              && (longOnly || !Alike(opts[pfound], opts[k])))
    {
      if name <= opts[p].name {
        if pfound == -1 {
          pfound := p;
        } else if longOnly || !Alike(opts[pfound], opts[p]) {
          ambiguous := true;
        }
      }
      p := p + 1;
    }
    found := if ambiguous then Ambiguous else if pfound == -1 then NoMatch else Found(pfound);
  }

  /** An exact name always wins; an abbreviation counts exactly when all it may stand for agree. */
  lemma LongMatchMeaning(opts: seq<LongOption>, name: string, longOnly: bool)
    ensures var m := LongMatch(opts, name, longOnly);
            && (m == NoMatch <==> forall o :: o in opts ==> !(name <= o.name))
            && (m.Found? <==>
                || (exists o :: o in opts && o.name == name)
                || ((exists o :: o in opts && name <= o.name)
                    && forall i, j :: 0 <= i < j < |opts| && name <= opts[i].name && name <= opts[j].name ==>
                         !longOnly && Alike(opts[i], opts[j])))
            && (m.Found? ==> m.index < |opts| && name <= opts[m.index].name)
            && (m.Found? && (exists o :: o in opts && o.name == name) ==> opts[m.index].name == name)
  {
    var e := First(opts, 0, (o: LongOption) => o.name == name);
    var f := First(opts, 0, (o: LongOption) => name <= o.name);
    if e == |opts| && f < |opts| {
      var g := First(opts, f + 1, (o: LongOption) => name <= o.name && (longOnly || !Alike(opts[f], o)));
    }
  }

  // ------------------------------------------------- whole scans

  ghost predicate Delivered(codes: seq<int>, args: seq<Option<string>>, reports: seq<Report>) {
    && |codes| == |args| == |reports|
    && forall k :: 0 <= k < |codes| ==> codes[k] == reports[k].ret && args[k] == reports[k].optarg
  }

  /** The program name is in place, and no element is lost. */
  ghost predicate Kept(a: seq<string>, b: seq<string>) {
    |a| == |b| > 0 && a[..1] == b[..1] && multiset(a) == multiset(b)
  }

  lemma KeptStill(a: seq<string>, b: seq<string>, c: seq<string>)
    requires |a| == |b| > 0 && a[..1] == b[..1] && multiset(a) == multiset(b) && (b == c || Kept(b, c))
    ensures Kept(a, c)
  {}

  lemma KeptMeans(a: seq<string>, b: seq<string>)
    requires Kept(a, b)
    ensures |a| == |b| > 0 && a[..1] == b[..1] && multiset(a) == multiset(b)
  {}

  lemma ShiftReport(done: seq<Report>, due: seq<Report>)
    requires due != []
    ensures (done + [due[0]]) + due[1..] == done + due
  {}

  lemma NothingDelivered()
    ensures Delivered([], [], [])
  {}

  lemma DeliveredNext(codes: seq<int>, args: seq<Option<string>>, reports: seq<Report>, r: Report)
    requires Delivered(codes, args, reports)
    ensures Delivered(codes + [r.ret], args + [r.optarg], reports + [r])
  {}

  lemma DeliveredMeans(codes: seq<int>, args: seq<Option<string>>, reports: seq<Report>)
    requires Delivered(codes, args, reports)
    ensures |codes| == |args| == |reports|
    ensures forall k :: 0 <= k < |codes| ==> codes[k] == reports[k].ret && args[k] == reports[k].optarg
  {}

  /** The usual loop over getopt, as in its own test program: all reports, up to the first -1. */
  method ScanAll(argv: array<string>, optstring: string, longopts: Option<seq<LongOption>>, longOnly: bool,
                 posixlyCorrect: bool)
    returns (d: Scanner, codes: seq<int>, args: seq<Option<string>>)
    requires argv.Length >= 1 && ConfigOf(optstring, longopts, longOnly, posixlyCorrect).Valid()
    modifies argv
    ensures var p := PlanOf(ConfigOf(optstring, longopts, longOnly, posixlyCorrect), old(argv[1..]), "");
            && |codes| == |args| == |p.reports|
            && (forall k :: 0 <= k < |codes| ==> codes[k] == p.reports[k].ret && args[k] == p.reports[k].optarg)
            && argv[..] == old(argv[..1]) + p.options + p.operands
            && d.optind == 1 + |p.options|
    ensures multiset(argv[..]) == old(multiset(argv[..]))
  {
    hide PlanOf, Config.Valid, ConfigOf, Scanner.Due, Scanner.Finished, Delivered, Kept;
    ghost var cfg := ConfigOf(optstring, longopts, longOnly, posixlyCorrect);
    ghost var plan := PlanOf(cfg, argv[1..], "");
    ghost var done: seq<Report>, due := [], plan.reports;
    d := new Scanner();
    DueAtStart(d, argv, cfg);
    codes, args := [], [];
    NothingDelivered();
    var c := d.GetoptInternal(argv, optstring, longopts, longOnly, posixlyCorrect, 1, plan, due);
    KeptStill(argv[..], old(argv[..]), old(argv[..]));
    while c != -1
      invariant Delivered(codes, args, done)
      invariant done + due == plan.reports
      invariant Kept(argv[..], old(argv[..]))
      invariant if c == -1 then due == [] && d.Finished(argv, 1, plan)
                else due != [] && c == due[0].ret && d.optarg == due[0].optarg && d.Due(argv, cfg, 1, plan, due[1..])
      decreases |due|, c != -1
    {
      DeliveredNext(codes, args, done, due[0]);
      ShiftReport(done, due);
      ghost var before := argv[..];
      codes, args := codes + [c], args + [d.optarg];
      done, due := done + [due[0]], due[1..];
      c := d.GetoptInternal(argv, optstring, longopts, longOnly, posixlyCorrect, 1, plan, due);
      KeptStill(argv[..], before, old(argv[..]));
    }
    KeptMeans(argv[..], old(argv[..]));
    assert done == plan.reports;
    DeliveredMeans(codes, args, done);
    FinishedParts(d, argv, 1, plan);
  }

  lemma DueAtStart(d: Scanner, argv: array<string>, cfg: Config)
    requires !d.initialized && d.optind == 1 <= argv.Length
    ensures var plan := PlanOf(cfg, argv[1..], ""); d.Due(argv, cfg, 1, plan, plan.reports)
  {}

  lemma FinishedParts(d: Scanner, argv: array<string>, start: nat, total: Plan)
    requires d.Finished(argv, start, total)
    ensures argv[..] == argv[..start] + total.options + total.operands && d.optind == start + |total.options|
  {
    assert argv[..] == argv[..start] + argv[start..d.optind] + argv[d.optind..];
  }

  /** s is a merge of a and b, each kept in its order. */
  ghost predicate IsMerge<T>(s: seq<T>, a: seq<T>, b: seq<T>)
    decreases |s|
  {
    if s == [] then a == [] && b == []
    else || (a != [] && a[0] == s[0] && IsMerge(s[1..], a[1..], b))
         || (b != [] && b[0] == s[0] && IsMerge(s[1..], a, b[1..]))
  }

  lemma {:induction false} MergePrefix<T>(p: seq<T>, s: seq<T>, a: seq<T>, b: seq<T>)
    requires IsMerge(s, a, b)
    ensures IsMerge(p + s, p + a, b)
    decreases |p|
  {
    if p == [] {
      assert p + s == s && p + a == a;
    } else {
      MergePrefix(p[1..], s, a, b);
      assert (p + s)[1..] == p[1..] + s && (p + a)[1..] == p[1..] + a;
    }
  }

  lemma {:induction false} MergeRight<T>(b: seq<T>)
    ensures IsMerge(b, [], b)
    decreases |b|
  {
    if b != [] { MergeRight(b[1..]); }
  }

  /**
    Every element scanned ends up exactly once among the options with their
    arguments or among the operands, and both keep the original order.
   */
  lemma {:induction false} PlanKeepsOrder(cfg: Config, rest: seq<string>, text: string)
    requires text != "" ==> rest != []
    ensures var p := PlanOf(cfg, rest, text); IsMerge(rest, p.options, p.operands)
    decreases |rest|, if text != "" then |text| else if rest == [] then 0 else |rest[0]| + 1
  {
    hide ShortStep, ElementStep;
    if text == "" && (rest == [] || rest[0] == "--") {
      if rest != [] {
        MergeRight(rest[1..]);
        assert ["--"][1..] == [];
      }
    } else if text == "" && IsNonoption(rest[0]) {
      MergeRight(rest);
      if cfg.ordering != RequireOrder {
        PlanKeepsOrder(cfg, rest[1..], "");
        var p := PlanOf(cfg, rest[1..], "");
        assert rest[..1] == [rest[0]] && rest == [rest[0]] + rest[1..];
        MergePrefix([rest[0]], rest[1..], p.options, p.operands);
        assert ([rest[0]] + p.operands)[1..] == p.operands;
      }
    } else {
      var s := if text != "" then ShortStep(cfg, rest, text) else ElementStep(cfg, rest);
      if s.pending != "" {
        PlanKeepsOrder(cfg, rest, s.pending);
      } else {
        PlanKeepsOrder(cfg, rest[s.used..], "");
        var p := PlanOf(cfg, rest[s.used..], "");
        MergePrefix(rest[..s.used], rest[s.used..], p.options, p.operands);
        assert rest == rest[..s.used] + rest[s.used..];
      }
    }
  }

  /** Without permutation nothing moves: the options are a prefix of the elements scanned. */
  lemma {:induction false} PlanInPlace(cfg: Config, rest: seq<string>, text: string)
    requires text != "" ==> rest != []
    requires cfg.ordering != Permute
    ensures var p := PlanOf(cfg, rest, text); p.options + p.operands == rest
    decreases |rest|, if text != "" then |text| else if rest == [] then 0 else |rest[0]| + 1
  {
    hide ShortStep, ElementStep;
    if text == "" && (rest == [] || rest[0] == "--") {
      assert rest != [] ==> ["--"] + rest[1..] == rest;
    } else if text == "" && IsNonoption(rest[0]) {
      if cfg.ordering != RequireOrder {
        PlanInPlace(cfg, rest[1..], "");
        assert rest[..1] + rest[1..] == rest;
      }
    } else {
      var s := if text != "" then ShortStep(cfg, rest, text) else ElementStep(cfg, rest);
      if s.pending != "" {
        PlanInPlace(cfg, rest, s.pending);
      } else {
        PlanInPlace(cfg, rest[s.used..], "");
        assert rest[..s.used] + rest[s.used..] == rest;
      }
    }
  }

  /** `tail` is everything after a "--". */
  ghost predicate FollowsDashes(rest: seq<string>, tail: seq<string>) {
    ["--"] + tail <= rest[|rest| - Min(|rest|, |tail| + 1)..]
  }

  lemma DashesFirst(rest: seq<string>)
    requires rest != [] && rest[0] == "--"
    ensures FollowsDashes(rest, rest[1..]) && FollowsDashes(rest, rest[1..][0..])
  {
    assert rest[0..] == rest && ["--"] + rest[1..] == rest && rest[1..][0..] == rest[1..];
  }

  lemma FollowsDashesIn(rest: seq<string>, n: nat, tail: seq<string>)
    requires n <= |rest|
    ensures FollowsDashes(rest[n..], tail) ==> FollowsDashes(rest, tail)
  {
    if FollowsDashes(rest[n..], tail) {
      assert |tail| + 1 <= |rest| - n;
      assert rest[n..][|rest| - n - (|tail| + 1)..] == rest[|rest| - (|tail| + 1)..];
    }
  }

  /**
    In PERMUTE mode the operands are non-options, followed by everything after
    the "--" that ends the options, if one was scanned.
   */
  lemma {:induction false} PlanOperands(cfg: Config, rest: seq<string>, text: string) returns (k: nat)
    requires text != "" ==> rest != []
    requires cfg.ordering == Permute
    ensures var p := PlanOf(cfg, rest, text);
            && k <= |p.operands| && (forall i :: 0 <= i < k ==> IsNonoption(p.operands[i]))
            && (k < |p.operands| ==> p.options != [] && p.options[|p.options| - 1] == "--"
                                     && FollowsDashes(rest, p.operands[k..]))
    decreases |rest|, if text != "" then |text| else if rest == [] then 0 else |rest[0]| + 1
  {
    hide ShortStep, ElementStep, IsNonoption, FollowsDashes;
    if text == "" && (rest == [] || rest[0] == "--") {
      k := 0;
      if rest != [] { DashesFirst(rest); }
    } else if text == "" && IsNonoption(rest[0]) {
      k := PlanOperands(cfg, rest[1..], "");
      var ops := PlanOf(cfg, rest[1..], "").operands;
      FollowsDashesIn(rest, 1, ops[k..]);
      assert ([rest[0]] + ops)[k + 1..] == ops[k..];
      k := k + 1;
    } else {
      var s := if text != "" then ShortStep(cfg, rest, text) else ElementStep(cfg, rest);
      if s.pending != "" {
        k := PlanOperands(cfg, rest, s.pending);
      } else {
        k := PlanOperands(cfg, rest[s.used..], "");
        FollowsDashesIn(rest, s.used, PlanOf(cfg, rest[s.used..], "").operands[k..]);
      }
    }
  }
}
