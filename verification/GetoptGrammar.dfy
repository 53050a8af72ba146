/**
  What a command line means, option by option, as the declarations of the options say it.

  A command line is read as a sequence of items.  The description of the items does not say
  how to scan; the plan that getopt follows is proved to be the meaning of the one reading.
 */
module GetoptGrammar {
  import opened Getopt
  import opened Wrappers

  // ---------------------------------------------------- declarations of options

  /** The first c of optstring is followed by `mark`. */
  ghost predicate Followed(optstring: string, c: char, mark: string) {
    exists k :: 0 <= k < |optstring| && optstring[k] == c && c !in optstring[..k] && mark <= optstring[k + 1..]
  }

  ghost predicate IsUnknown(cfg: Config, c: char) {
    c !in cfg.optstring || c == ':' || c == ';'
  }

  /** "W;" lets "-W foo" stand for "--foo". */
  ghost predicate IsW(cfg: Config, c: char) {
    c == 'W' && Followed(cfg.optstring, c, ";") && cfg.longopts.Some?
  }

  ghost predicate TakesNothing(cfg: Config, c: char) {
    IsUnknown(cfg, c) || (!IsW(cfg, c) && !Followed(cfg.optstring, c, ":"))
  }

  /** The name in "name" or "name=value". */
  ghost predicate NamePart(text: string, name: string) {
    name <= text && '=' !in name && (|name| < |text| ==> text[|name|] == '=')
  }

  ghost predicate IsExact(opts: seq<LongOption>, name: string, i: nat) {
    i < |opts| && opts[i].name == name && forall j :: 0 <= j < i ==> opts[j].name != name
  }

  /** Without an exact match, the first option that the name abbreviates, if all such options agree. */
  ghost predicate IsAbbreviated(opts: seq<LongOption>, name: string, longOnly: bool, i: nat) {
    && i < |opts| && name <= opts[i].name
    && (forall j :: 0 <= j < |opts| ==> opts[j].name != name)
    && (forall j :: 0 <= j < i ==> !(name <= opts[j].name))
    && forall j :: i < j < |opts| && name <= opts[j].name ==>
         && !longOnly
         && opts[j].hasArg == opts[i].hasArg && opts[j].flag == opts[i].flag && opts[j].val == opts[i].val
  }

  ghost predicate Denotes(opts: seq<LongOption>, name: string, longOnly: bool, i: nat) {
    IsExact(opts, name, i) || IsAbbreviated(opts, name, longOnly, i)
  }

  // ---------------------------------------------------------- what is reported

  function Success(ret: int, optarg: Option<string>): Report {
    Report(ret, optarg, None, None, None)
  }

  function Failure(ret: int, optopt: int): Report {
    Report(ret, None, Some(optopt), None, None)
  }

  /** For a missing argument: ':' if optstring begins with a colon. */
  function Lacking(cfg: Config, optopt: int): Report {
    Failure(if ":" <= cfg.optstring then ':' as int else '?' as int, optopt)
  }

  function Accepted(o: LongOption, i: nat, optarg: Option<string>): Report {
    match o.flag
    case Some(variable) => Report(0, optarg, None, Some(i), Some((variable, o.val)))
    case None => Report(o.val, optarg, None, Some(i), None)
  }

  /**
    Long option number i with the value after its '=' if any.  `args` are further elements
    that belong to it; `last` says that no more elements follow.
   */
  ghost predicate IsReported(cfg: Config, o: LongOption, i: nat, value: Option<string>, args: seq<string>, last: bool,
                             r: Report)
  {
    if value.Some? then
      args == [] && r == if o.hasArg == 0 then Failure('?' as int, o.val) else Accepted(o, i, value)
    else if o.hasArg != 1 then args == [] && r == Accepted(o, i, None)
    else if args == [] then last && r == Lacking(cfg, o.val)
    else |args| == 1 && r == Accepted(o, i, Some(args[0]))
  }

  ghost predicate IsNamed(cfg: Config, name: string, value: Option<string>, longOnly: bool, args: seq<string>,
                          last: bool, r: Report)
  {
    && cfg.longopts.Some?
    && var opts := cfg.longopts.value;
       if exists i: nat :: Denotes(opts, name, longOnly, i) then
         exists i: nat :: && i < |opts| && Denotes(opts, name, longOnly, i)
                          && IsReported(cfg, opts[i], i, value, args, last, r)
       else args == [] && r == Failure('?' as int, 0)
  }

  function ValueOf(text: string, n: nat): Option<string> {
    if n < |text| then Some(text[n + 1..]) else None
  }

  /** The report for "name" or "name=value". */
  ghost predicate IsLong(cfg: Config, text: string, longOnly: bool, args: seq<string>, last: bool, r: Report) {
    exists name :: NamePart(text, name) && IsNamed(cfg, name, ValueOf(text, |name|), longOnly, args, last, r)
  }

  /** The report for an option character that takes nothing. */
  ghost predicate IsAlone(cfg: Config, c: char, r: Report) {
    TakesNothing(cfg, c) && r == if IsUnknown(cfg, c) then Failure('?' as int, c as int) else Success(c as int, None)
  }

  /** The report for the last option character read in an element; `tail` is what the element has behind it. */
  ghost predicate IsLast(cfg: Config, c: char, tail: string, args: seq<string>, last: bool, r: Report) {
    if TakesNothing(cfg, c) then tail == "" && args == [] && IsAlone(cfg, c, r)
    else if IsW(cfg, c) then
      if tail != "" then IsLong(cfg, tail, false, args, last, r)
      else if args == [] then last && r == Lacking(cfg, c as int)
      else IsLong(cfg, args[0], false, args[1..], last, r)
    else if tail != "" then args == [] && r == Success(c as int, Some(tail))
    else if Followed(cfg.optstring, c, "::") then args == [] && r == Success(c as int, None)
    else if args == [] then last && r == Lacking(cfg, c as int)
    else |args| == 1 && r == Success(c as int, Some(args[0]))
  }

  // -------------------------------------------------------------------- items

  /** Neither a non-option nor "--". */
  predicate IsOption(s: string) {
    2 <= |s| && s[0] == '-' && s[1] != '\0' && s != "--"
  }

  predicate IsPlain(s: string) {
    |s| < 2 || s[0] != '-' || s[1] == '\0'
  }

  /** The name abbreviates, or is, the name of some option. */
  ghost predicate IsKnown(opts: seq<LongOption>, text: string) {
    exists name, i :: NamePart(text, name) && 0 <= i < |opts| && name <= opts[i].name
  }

  /** "--foo", and for long-only use "-foo" if it is not to be read as short options. */
  ghost predicate IsLongElement(cfg: Config, s: string)
    requires IsOption(s)
  {
    && cfg.longopts.Some?
    && (|| s[1] == '-'
        || (cfg.longOnly && (s[1] in cfg.optstring ==> |s| > 2 && IsKnown(cfg.longopts.value, s[1..]))))
  }

  /** An option element and what belongs to it, the reports about it, or what is not an option. */
  datatype Item =
    | Options(elements: seq<string>, reports: seq<Report>)
    | Operand(s: string)
    | Dashes(tail: seq<string>)
    | Stop(tail: seq<string>)

  ghost predicate IsShortGroup(cfg: Config, elements: seq<string>, reports: seq<Report>, last: bool)
    requires elements != []
  {
    var s, m := elements[0], |reports|;
    && 1 <= m < |s|
    && (forall k :: 1 <= k < m ==> IsAlone(cfg, s[k], reports[k - 1]))
    && IsLast(cfg, s[m], s[m + 1..], elements[1..], last, reports[m - 1])
  }

  ghost predicate IsGroup(cfg: Config, elements: seq<string>, reports: seq<Report>, last: bool) {
    && elements != [] && IsOption(elements[0])
    && var s := elements[0];
       if IsLongElement(cfg, s) then
         && |reports| == 1
         && IsLong(cfg, if s[1] == '-' then s[2..] else s[1..], cfg.longOnly, elements[1..], last, reports[0])
       else IsShortGroup(cfg, elements, reports, last)
  }

  ghost predicate IsItem(cfg: Config, x: Item, last: bool) {
    match x
    case Options(elements, reports) => IsGroup(cfg, elements, reports, last)
    case Operand(s) => IsPlain(s) && cfg.ordering != RequireOrder
    case Dashes(_) => last
    case Stop(tail) => last && tail != [] && IsPlain(tail[0]) && cfg.ordering == RequireOrder
  }

  ghost predicate IsReading(cfg: Config, items: seq<Item>) {
    forall k :: 0 <= k < |items| ==> IsItem(cfg, items[k], k == |items| - 1)
  }

  function ItemText(x: Item): seq<string> {
    match x
    case Options(elements, _) => elements
    case Operand(s) => [s]
    case Dashes(tail) => ["--"] + tail
    case Stop(tail) => tail
  }

  function LineOf(items: seq<Item>): seq<string> {
    if items == [] then [] else ItemText(items[0]) + LineOf(items[1..])
  }

  /** What one item reports, and where its elements go. */
  function Meant(cfg: Config, x: Item, p: Plan): Plan {
    match x
    case Options(elements, reports) => Plan(reports + p.reports, elements + p.options, p.operands)
    case Operand(s) =>
      if cfg.ordering == Permute then Plan(p.reports, p.options, [s] + p.operands)
      else Plan([Success(1, Some(s))] + p.reports, [s] + p.options, p.operands)
    case Dashes(tail) => Plan(p.reports, ["--"] + p.options, tail + p.operands)
    case Stop(tail) => Plan(p.reports, p.options, tail + p.operands)
  }

  /** What a reading has reported, and how it arranges the elements. */
  function Meaning(cfg: Config, items: seq<Item>): Plan {
    if items == [] then Plan([], [], []) else Meant(cfg, items[0], Meaning(cfg, items[1..]))
  }

  // ------------------------------------------------------------ long options

  lemma FirstIs<T>(s: seq<T>, i: nat, p: T -> bool, k: nat)
    requires i <= k <= |s| && (forall j :: i <= j < k ==> !p(s[j])) && (k < |s| ==> p(s[k]))
    ensures First(s, i, p) == k
  {}

  /** The searches find what the name denotes, if anything. */
  lemma MatchDenotes(opts: seq<LongOption>, name: string, longOnly: bool)
    ensures forall i: nat :: Denotes(opts, name, longOnly, i) <==> LongMatch(opts, name, longOnly) == Found(i)
    ensures var m := LongMatch(opts, name, longOnly); m.Found? ==> m.index < |opts|
    ensures LongMatch(opts, name, longOnly) == NoMatch <==> forall i :: 0 <= i < |opts| ==> !(name <= opts[i].name)
  {
    var e := First(opts, 0, (o: LongOption) => o.name == name);
    var f := First(opts, 0, (o: LongOption) => name <= o.name);
    if e == |opts| && f < |opts| {
      var g := First(opts, f + 1, (o: LongOption) => name <= o.name && (longOnly || !Alike(opts[f], o)));
    }
  }

  lemma NamePartIs(text: string, name: string)
    ensures NamePart(text, name) <==> name == text[..NameLength(text)]
  {
    var n := NameLength(text);
    if NamePart(text, name) {
      assert forall j :: 0 <= j < |name| ==> text[j] == name[j];
      FirstIs(text, 0, x => x == '=', |name|);
    }
  }

  lemma LongFoundIs(o: LongOption, i: nat, arg: Option<string>, used: nat)
    ensures LongFound(o, i, arg, used) == Step(Accepted(o, i, arg), used, "")
  {}

  lemma LackingIs(cfg: Config, optopt: int, used: nat)
    ensures Problem(cfg.Missing(), optopt, used) == Step(Lacking(cfg, optopt), used, "")
  {}

  /** LongStep for a name and a value, on the grammar's terms. */
  lemma LongStepCases(cfg: Config, rest: seq<string>, text: string, longOnly: bool)
    requires cfg.longopts.Some? && rest != []
    ensures var opts, n := cfg.longopts.value, NameLength(text);
            var value, m := ValueOf(text, n), LongMatch(opts, text[..n], longOnly);
            match LongStep(cfg, rest, text, longOnly)
            case None => m == NoMatch && longOnly && At(rest[0], 1) != '-' && (text == "" || text[0] in cfg.optstring)
            case Some(s) =>
              && s.pending == ""
              && (m == NoMatch ==> !(longOnly && At(rest[0], 1) != '-' && (text == "" || text[0] in cfg.optstring)))
              && if m.Found? then
                   IsReported(cfg, opts[m.index], m.index, value, rest[1..s.used], s.used == |rest|, s.report)
                 else s.used == 1 && s.report == Failure('?' as int, 0)
  {
    hide LongMatch, Config.Missing, LongFound, Lacking, Accepted;
    var opts, n := cfg.longopts.value, NameLength(text);
    MatchDenotes(opts, text[..n], longOnly);
    forall o: LongOption, i: nat, arg: Option<string>, used: nat
      ensures LongFound(o, i, arg, used) == Step(Accepted(o, i, arg), used, "")
    {
      LongFoundIs(o, i, arg, used);
    }
    forall optopt: int, used: nat
      ensures Problem(cfg.Missing(), optopt, used) == Step(Lacking(cfg, optopt), used, "")
    {
      LackingIs(cfg, optopt, used);
    }
  }

  /** LongStep reports what the grammar says, and takes the elements that it says. */
  lemma LongStepMeans(cfg: Config, rest: seq<string>, text: string, longOnly: bool)
    requires cfg.longopts.Some? && rest != [] && LongStep(cfg, rest, text, longOnly).Some?
    ensures var s := LongStep(cfg, rest, text, longOnly).value;
            IsLong(cfg, text, longOnly, rest[1..s.used], s.used == |rest|, s.report)
  {
    hide LongMatch, Denotes, IsReported, LongStep, NameLength, NamePart, ValueOf;
    var opts, n := cfg.longopts.value, NameLength(text);
    var name, m, s := text[..n], LongMatch(opts, text[..n], longOnly), LongStep(cfg, rest, text, longOnly).value;
    NamePartIs(text, name);
    MatchDenotes(opts, name, longOnly);
    LongStepCases(cfg, rest, text, longOnly);
    if m.Found? { assert Denotes(opts, name, longOnly, m.index); }
    assert IsNamed(cfg, name, ValueOf(text, |name|), longOnly, rest[1..s.used], s.used == |rest|, s.report);
  }

  // ------------------------------------------------- option characters and elements

  /** For an optstring split at the first c. */
  lemma FollowedSplit(a: string, c: char, b: string, mark: string)
    requires c !in a
    ensures Followed(a + [c] + b, c, mark) <==> mark <= b
  {
    var s := a + [c] + b;
    assert s[|a|] == c && s[..|a|] == a && s[|a| + 1..] == b;
    if Followed(s, c, mark) {
      var k :| 0 <= k < |s| && s[k] == c && c !in s[..k] && mark <= s[k + 1..];
      assert k == |a|;
    }
  }

  /** What follows the first c, where strchr finds it. */
  lemma FollowedAt(optstring: string, c: char)
    ensures var k := IndexOf(optstring, c);
            && (c !in optstring <==> k == |optstring|)
            && (Followed(optstring, c, ";") <==> c in optstring && At(optstring, k + 1) == ';')
            && (Followed(optstring, c, ":") <==> c in optstring && At(optstring, k + 1) == ':')
            && (Followed(optstring, c, "::") <==>
                  c in optstring && At(optstring, k + 1) == ':' && At(optstring, k + 2) == ':')
  {
    var k := IndexOf(optstring, c);
    forall mark: string ensures Followed(optstring, c, mark) <==> k < |optstring| && mark <= optstring[k + 1..] {
      if Followed(optstring, c, mark) {
        var j :| && 0 <= j < |optstring| && optstring[j] == c && c !in optstring[..j]
                 && mark <= optstring[j + 1..];
        assert k == j;
      }
    }
    if k < |optstring| { Marks(optstring[k + 1..]); }
  }

  lemma Marks(s: string)
    ensures ";" <= s <==> At(s, 0) == ';'
    ensures ":" <= s <==> At(s, 0) == ':'
    ensures "::" <= s <==> At(s, 0) == ':' && At(s, 1) == ':'
  {}

  /** One option character: alone, or the last one read in its element. */
  lemma ShortStepMeans(cfg: Config, rest: seq<string>, text: string)
    requires rest != [] && text != ""
    ensures var s := ShortStep(cfg, rest, text);
            if s.pending != "" then s.pending == text[1..] && IsAlone(cfg, text[0], s.report)
            else IsLast(cfg, text[0], text[1..], rest[1..s.used], s.used == |rest|, s.report)
  {
    hide LongStep, IsLong, Config.Missing, Followed, At, IndexOf, Lacking;
    var c, tail := text[0], text[1..];
    FollowedAt(cfg.optstring, c);
    LackingIs(cfg, c as int, 1);
    if cfg.longopts.Some? {
      LongStepMeans(cfg, rest, tail, false);
      if |rest| > 1 {
        LongStepMeans(cfg, rest[1..], rest[1], false);
        var n := LongStep(cfg, rest[1..], rest[1], false).value.used;
        assert rest[1..][1..n] == rest[1..n + 1][1..];
      }
    }
  }

  lemma KnownIs(opts: seq<LongOption>, text: string)
    ensures IsKnown(opts, text) <==> LongMatch(opts, text[..NameLength(text)], true) != NoMatch
  {
    hide LongMatch, NameLength, NamePart;
    var name := text[..NameLength(text)];
    NamePartIs(text, name);
    MatchDenotes(opts, name, true);
    forall other: string | NamePart(text, other) ensures other == name { NamePartIs(text, other); }
  }

  lemma OptionIs(s: string)
    ensures IsPlain(s) <==> IsNonoption(s)
    ensures IsOption(s) <==> !IsNonoption(s) && s != "--"
  {}

  /** An element goes to the long options exactly if the grammar says so. */
  lemma LongElementIs(cfg: Config, rest: seq<string>)
    requires rest != [] && IsOption(rest[0])
    ensures var s := rest[0];
            var text := if s[1] == '-' then s[2..] else s[1..];
            if IsLongElement(cfg, s) then
              cfg.longopts.Some? && LongStep(cfg, rest, text, cfg.longOnly) == Some(ElementStep(cfg, rest))
            else ElementStep(cfg, rest) == ShortStep(cfg, rest, s[1..])
  {
    hide LongStep, ShortStep, IsKnown, LongMatch;
    var s := rest[0];
    if cfg.longopts.Some? {
      LongStepCases(cfg, rest, s[2..], cfg.longOnly);
      LongStepCases(cfg, rest, s[1..], true);
      KnownIs(cfg.longopts.value, s[1..]);
    }
  }

  /** The rest of an element from character k on, and what the plan makes of it. */
  lemma {:induction false} ShortReports(cfg: Config, rest: seq<string>, k: nat) returns (n: nat, reports: seq<Report>)
    requires rest != [] && 1 <= k < |rest[0]|
    ensures 1 <= n <= |rest| && 1 <= |reports| <= |rest[0]| - k
    ensures var s, m := rest[0], k + |reports| - 1;
            && (forall j :: k <= j < m ==> IsAlone(cfg, s[j], reports[j - k]))
            && IsLast(cfg, s[m], s[m + 1..], rest[1..n], n == |rest|, reports[|reports| - 1])
    ensures PlanOf(cfg, rest, rest[0][k..]) == Moves(rest[..n], reports, PlanOf(cfg, rest[n..], ""))
    decreases |rest[0]| - k
  {
    hide ShortStep, IsLast, IsAlone, PlanOf;
    var s := rest[0];
    var text := s[k..];
    assert text[0] == s[k] && text[1..] == s[k + 1..];
    var step := ShortStep(cfg, rest, text);
    ShortStepMeans(cfg, rest, text);
    PlanMoved(cfg, rest, text, step);
    if step.pending == "" {
      n, reports := step.used, [step.report];
    } else {
      var later;
      n, later := ShortReports(cfg, rest, k + 1);
      reports := [step.report] + later;
      var p := PlanOf(cfg, rest[n..], "");
      assert [step.report] + (later + p.reports) == reports + p.reports;
    }
  }

  /** A plan that begins with some elements and their reports. */
  function Moves(elements: seq<string>, reports: seq<Report>, p: Plan): Plan {
    Plan(reports + p.reports, elements + p.options, p.operands)
  }

  /** An option element and what belongs to it are a group of the grammar. */
  lemma OptionGroup(cfg: Config, rest: seq<string>) returns (n: nat, reports: seq<Report>)
    requires rest != [] && IsOption(rest[0])
    ensures 1 <= n <= |rest| && IsGroup(cfg, rest[..n], reports, n == |rest|)
    ensures PlanOf(cfg, rest, "") == Moves(rest[..n], reports, PlanOf(cfg, rest[n..], ""))
  {
    hide ShortStep, ElementStep, LongStep, IsLongElement, IsLast, IsAlone, IsLong, PlanOf;
    var s, step := rest[0], ElementStep(cfg, rest);
    OptionIs(s);
    LongElementIs(cfg, rest);
    PlanMoved(cfg, rest, "", step);
    if IsLongElement(cfg, s) {
      var text := if s[1] == '-' then s[2..] else s[1..];
      LongStepMeans(cfg, rest, text, cfg.longOnly);
      LongStepCases(cfg, rest, text, cfg.longOnly);
      n, reports := step.used, [step.report];
      assert rest[..n][1..] == rest[1..n];
    } else {
      PlanMoved(cfg, rest, s[1..], step);
      n, reports := ShortReports(cfg, rest, 1);
      assert rest[..n][1..] == rest[1..n];
    }
  }

  // ------------------------------------------------------------ whole command lines

  lemma ConsReading(cfg: Config, x: Item, items: seq<Item>)
    requires IsReading(cfg, items) && IsItem(cfg, x, items == [])
    ensures IsReading(cfg, [x] + items) && LineOf([x] + items) == ItemText(x) + LineOf(items)
    ensures Meaning(cfg, [x] + items) == Meant(cfg, x, Meaning(cfg, items))
  {
    hide IsItem;
    assert ([x] + items)[1..] == items;
  }

  /** Every command line has a reading, and its plan is what the reading means. */
  lemma {:induction false} PlanOptions(cfg: Config, rest: seq<string>) returns (items: seq<Item>)
    ensures IsReading(cfg, items) && LineOf(items) == rest
    ensures PlanOf(cfg, rest, "") == Meaning(cfg, items)
    decreases |rest|
  {
    hide PlanOf, IsGroup, IsReading, LineOf, Meaning, IsOption, IsPlain, IsNonoption;
    NothingRead(cfg);
    items := [];
    if rest == [] {
      PlanEnd(cfg, rest);
    } else {
      OptionIs(rest[0]);
      var x, later;
      if rest[0] == "--" {
        PlanEnd(cfg, rest);
        x, later := Dashes(rest[1..]), [];
      } else if IsNonoption(rest[0]) {
        PlanNonoption(cfg, rest);
        if cfg.ordering == RequireOrder {
          x, later := Stop(rest), [];
        } else {
          x := Operand(rest[0]);
          later := PlanOptions(cfg, rest[1..]);
        }
      } else {
        var n, reports := OptionGroup(cfg, rest);
        x := Options(rest[..n], reports);
        later := PlanOptions(cfg, rest[n..]);
        LineEmpty(cfg, later);
      }
      LineEmpty(cfg, later);
      ConsReading(cfg, x, later);
      items := [x] + later;
    }
  }

  lemma NothingRead(cfg: Config)
    ensures IsReading(cfg, []) && LineOf([]) == [] && Meaning(cfg, []) == Plan([], [], [])
  {}

  // --------------------------------------------------- there is only one reading

  lemma SplitUnique<T>(a: seq<T>, b: seq<T>, c: seq<T>, d: seq<T>)
    requires a + b == c + d && |a| == |c|
    ensures a == c && b == d
  {
    assert a == (a + b)[..|a|] && c == (c + d)[..|a|] && b == (a + b)[|a|..] && d == (c + d)[|a|..];
  }

  lemma ReportedUnique(cfg: Config, o: LongOption, i: nat, value: Option<string>, args: seq<string>,
                       more: seq<string>, r: Report, args': seq<string>, more': seq<string>, r': Report)
    requires IsReported(cfg, o, i, value, args, more == [], r) && IsReported(cfg, o, i, value, args', more' == [], r')
    requires args + more == args' + more'
    ensures args == args' && r == r' && more == more'
  {
    hide Lacking, Accepted;
    assert |args + more| == |args' + more'|;
    SplitUnique(args, more, args', more');
  }

  lemma DenotesUnique(opts: seq<LongOption>, name: string, longOnly: bool, i: nat, j: nat)
    requires Denotes(opts, name, longOnly, i) && Denotes(opts, name, longOnly, j)
    ensures i == j
  {}

  lemma LongUnique(cfg: Config, text: string, longOnly: bool, args: seq<string>, more: seq<string>, r: Report,
                   args': seq<string>, more': seq<string>, r': Report)
    requires IsLong(cfg, text, longOnly, args, more == [], r) && IsLong(cfg, text, longOnly, args', more' == [], r')
    requires args + more == args' + more'
    ensures args == args' && r == r' && more == more'
  {
    hide Denotes, IsReported, NamePart;
    var opts := cfg.longopts.value;
    var name :| NamePart(text, name) && IsNamed(cfg, name, ValueOf(text, |name|), longOnly, args, more == [], r);
    var name' :| NamePart(text, name') && IsNamed(cfg, name', ValueOf(text, |name'|), longOnly, args', more' == [], r');
    NamePartIs(text, name);
    NamePartIs(text, name');
    var value := ValueOf(text, |name|);
    if exists i: nat :: Denotes(opts, name, longOnly, i) {
      var i: nat :| && i < |opts| && Denotes(opts, name, longOnly, i)
                    && IsReported(cfg, opts[i], i, value, args, more == [], r);
      var j: nat :| && j < |opts| && Denotes(opts, name, longOnly, j)
                    && IsReported(cfg, opts[j], j, value, args', more' == [], r');
      DenotesUnique(opts, name, longOnly, i, j);
      ReportedUnique(cfg, opts[i], i, value, args, more, r, args', more', r');
    } else {
      SplitUnique(args, more, args', more');
    }
  }

  lemma LastUnique(cfg: Config, c: char, tail: string, args: seq<string>, more: seq<string>, r: Report,
                   args': seq<string>, more': seq<string>, r': Report)
    requires IsLast(cfg, c, tail, args, more == [], r) && IsLast(cfg, c, tail, args', more' == [], r')
    requires args + more == args' + more'
    ensures args == args' && r == r' && more == more'
  {
    hide IsLong, Followed, IsUnknown;
    assert |args + more| == |args' + more'|;
    if IsW(cfg, c) && !TakesNothing(cfg, c) {
      if tail != "" {
        LongUnique(cfg, tail, false, args, more, r, args', more', r');
      } else if args != [] && args' != [] {
        assert args[0] == (args + more)[0] && args'[0] == (args' + more')[0];
        assert args[1..] + more == (args + more)[1..] && args'[1..] + more' == (args' + more')[1..];
        LongUnique(cfg, args[0], false, args[1..], more, r, args'[1..], more', r');
        assert args == [args[0]] + args[1..] && args' == [args[0]] + args'[1..];
      } else {
        SplitUnique(args, more, args', more');
      }
    } else {
      SplitUnique(args, more, args', more');
    }
  }

  /** An option character that something follows in its element goes on exactly if it takes nothing. */
  lemma ShortLength(cfg: Config, elements: seq<string>, reports: seq<Report>, last: bool,
                    elements': seq<string>, reports': seq<Report>, last': bool)
    requires elements != [] && IsShortGroup(cfg, elements, reports, last)
    requires elements' != [] && IsShortGroup(cfg, elements', reports', last') && elements[0] == elements'[0]
    ensures |reports| == |reports'|
    ensures reports[..|reports| - 1] == reports'[..|reports| - 1]
  {
    hide IsLong, Followed, IsUnknown, IsW;
    var s, m := elements[0], |reports|;
    assert m == |reports'|;
    forall k | 0 <= k < m - 1 ensures reports[k] == reports'[k] {
      assert IsAlone(cfg, s[k + 1], reports[k]) && IsAlone(cfg, s[k + 1], reports'[k]);
    }
  }

  lemma ShortGroupUnique(cfg: Config, elements: seq<string>, reports: seq<Report>, more: seq<string>,
                         elements': seq<string>, reports': seq<Report>, more': seq<string>)
    requires elements != [] && IsShortGroup(cfg, elements, reports, more == [])
    requires elements' != [] && IsShortGroup(cfg, elements', reports', more' == [])
    requires elements + more == elements' + more'
    ensures elements == elements' && reports == reports' && more == more'
  {
    hide IsLast, IsAlone;
    var s, m := elements[0], |reports|;
    assert s == (elements + more)[0] == (elements' + more')[0] == elements'[0];
    assert elements[1..] + more == (elements + more)[1..] && elements'[1..] + more' == (elements' + more')[1..];
    ShortLength(cfg, elements, reports, more == [], elements', reports', more' == []);
    LastUnique(cfg, s[m], s[m + 1..], elements[1..], more, reports[m - 1], elements'[1..], more', reports'[m - 1]);
    assert elements == [s] + elements[1..] && elements' == [s] + elements'[1..];
    assert reports == reports[..m - 1] + [reports[m - 1]] && reports' == reports'[..m - 1] + [reports'[m - 1]];
  }

  lemma GroupUnique(cfg: Config, elements: seq<string>, reports: seq<Report>, more: seq<string>,
                    elements': seq<string>, reports': seq<Report>, more': seq<string>)
    requires IsGroup(cfg, elements, reports, more == []) && IsGroup(cfg, elements', reports', more' == [])
    requires elements + more == elements' + more'
    ensures elements == elements' && reports == reports' && more == more'
  {
    hide IsLong, IsShortGroup, IsLongElement;
    var s := elements[0];
    assert s == (elements + more)[0] == (elements' + more')[0] == elements'[0];
    if IsLongElement(cfg, s) {
      var text := if s[1] == '-' then s[2..] else s[1..];
      assert elements[1..] + more == (elements + more)[1..] && elements'[1..] + more' == (elements' + more')[1..];
      LongUnique(cfg, text, cfg.longOnly, elements[1..], more, reports[0], elements'[1..], more', reports'[0]);
      assert elements == [s] + elements[1..] && elements' == [s] + elements'[1..];
    } else {
      ShortGroupUnique(cfg, elements, reports, more, elements', reports', more');
    }
  }

  lemma ReadingRest(cfg: Config, items: seq<Item>)
    requires IsReading(cfg, items) && items != []
    ensures IsReading(cfg, items[1..]) && LineOf(items) == ItemText(items[0]) + LineOf(items[1..])
    ensures IsItem(cfg, items[0], LineOf(items[1..]) == [])
    ensures LineOf(items[1..]) == [] ==> |items| == 1
    ensures LineOf(items) != []
  {
    hide IsItem;
    if |items| > 1 { ItemNotEmpty(cfg, items[1], |items| == 2); }
    ItemNotEmpty(cfg, items[0], |items| == 1);
  }

  lemma ItemNotEmpty(cfg: Config, x: Item, last: bool)
    requires IsItem(cfg, x, last)
    ensures ItemText(x) != []
    ensures x.Dashes? || x.Stop? ==> last
    ensures match x
            case Options(elements, _) => IsOption(elements[0])
            case Operand(s) => IsPlain(s) && cfg.ordering != RequireOrder
            case Dashes(_) => true
            case Stop(tail) => IsPlain(tail[0]) && cfg.ordering == RequireOrder
  {
    hide IsShortGroup, IsLong, IsLongElement;
  }

  /** Every command line has at most one reading. */
  lemma {:induction false} ReadingUnique(cfg: Config, xs: seq<Item>, ys: seq<Item>)
    requires IsReading(cfg, xs) && IsReading(cfg, ys) && LineOf(xs) == LineOf(ys)
    ensures xs == ys
    decreases |xs|
  {
    hide IsReading, IsGroup, LineOf;
    if xs == [] || ys == [] {
      LineEmpty(cfg, xs);
      LineEmpty(cfg, ys);
    } else {
      var x, y, xs', ys' := xs[0], ys[0], xs[1..], ys[1..];
      ReadingRest(cfg, xs);
      ReadingRest(cfg, ys);
      FirstUnique(cfg, x, LineOf(xs'), y, LineOf(ys'));
      ReadingUnique(cfg, xs', ys');
      assert xs == [x] + xs' && ys == [y] + ys';
    }
  }

  lemma LineEmpty(cfg: Config, xs: seq<Item>)
    requires IsReading(cfg, xs)
    ensures LineOf(xs) == [] <==> xs == []
  {
    hide IsReading;
    if xs != [] { ReadingRest(cfg, xs); }
  }

  lemma FirstUnique(cfg: Config, x: Item, more: seq<string>, y: Item, more': seq<string>)
    requires IsItem(cfg, x, more == []) && IsItem(cfg, y, more' == []) && ItemText(x) + more == ItemText(y) + more'
    ensures x == y && more == more'
  {
    hide IsGroup;
    ItemNotEmpty(cfg, x, more == []);
    ItemNotEmpty(cfg, y, more' == []);
    assert ItemText(x)[0] == (ItemText(x) + more)[0] == (ItemText(y) + more')[0] == ItemText(y)[0];
    assert more == [] ==> ItemText(x) + more == ItemText(x);
    assert more' == [] ==> ItemText(y) + more' == ItemText(y);
    if x.Options? {
      GroupUnique(cfg, x.elements, x.reports, more, y.elements, y.reports, more');
    } else if x.Operand? {
      SplitUnique([x.s], more, [y.s], more');
    } else if x.Dashes? {
      SplitUnique(["--"], x.tail, ["--"], y.tail);
    }
  }

  /** So a command line that can be read as some items is scanned as just these items. */
  lemma ReadingIsPlan(cfg: Config, items: seq<Item>)
    requires IsReading(cfg, items)
    ensures PlanOf(cfg, LineOf(items), "") == Meaning(cfg, items)
  {
    hide PlanOf, IsReading, LineOf, Meaning;
    var found := PlanOptions(cfg, LineOf(items));
    ReadingUnique(cfg, items, found);
  }

  /** The option o of "o:" takes the next element. */
  lemma RequiredArgument(cfg: Config, file: string)
    requires cfg.optstring == "o:" && cfg.longopts.None?
    ensures PlanOf(cfg, ["-o", file], "") == Plan([Success('o' as int, Some(file))], ["-o", file], [])
  {
    hide PlanOf;
    var r := Success('o' as int, Some(file));
    FollowedSplit("", 'o', ":", ":");
    FollowedSplit("", 'o', ":", "::");
    assert "" + ['o'] + ":" == "o:";
    assert IsLast(cfg, 'o', "", [file], true, r);
    assert IsShortGroup(cfg, ["-o", file], [r], true);
    var x := Options(["-o", file], [r]);
    NothingRead(cfg);
    ConsReading(cfg, x, []);
    assert [x] + [] == [x];
    assert ["-o", file] + [] == ["-o", file] && [r] + [] == [r];
    ReadingIsPlan(cfg, [x]);
  }

  /** The first character of the string that the program passes. */
  lemma ConfigMeans(s: string, longopts: Option<seq<LongOption>>, longOnly: bool, posixlyCorrect: bool)
    ensures ConfigOf("-" + s, longopts, longOnly, posixlyCorrect) == Config(ReturnInOrder, s, longopts, longOnly)
    ensures ConfigOf("+" + s, longopts, longOnly, posixlyCorrect) == Config(RequireOrder, s, longopts, longOnly)
    ensures !("-" <= s) && !("+" <= s) ==>
              ConfigOf(s, longopts, longOnly, posixlyCorrect)
              == Config(if posixlyCorrect then RequireOrder else Permute, s, longopts, longOnly)
  {
    assert ("-" + s)[1..] == s && ("+" + s)[1..] == s;
  }
}
