/**
  The parser of printf format strings (gnulib/printf-parse.c) and the reader of the
  argument list that it describes (gnulib/printf-args.c).

  The specification has two independent halves.  Lex reads the directives off the text
  and numbers the arguments; Table then collects which type is demanded of which
  argument.  The code does both at once, in two tables that grow as it goes.
 */
module PrintfParse {
  import opened Digits
  import opened Powers
  import opened TwosComplement
  import opened Wrappers

  type SizeLimit = n: nat | 65535 <= n witness 65535
  type ObjectSize = n: nat | 0 < n witness 1

  /** The largest value of size_t; as a result it means overflow, as an index no argument. */
  const SIZE_MAX: SizeLimit
  const ARG_NONE: nat := SIZE_MAX
  const SIZEOF_ARGUMENT: ObjectSize
  const SIZEOF_DIRECTIVE: ObjectSize
  const DIRECT_ALLOC := 7
  /** Whether every request for memory is granted. */
  const MEMORY_LASTS: bool

  /** A C string in memory: it has no zero byte, and its size fits in size_t. */
  type CString = f: string | '\0' !in f && |f| < SIZE_MAX witness ""

  // ----------------------------------------------------------- size arithmetic

  /** The wrapped sum is smaller than an operand exactly on overflow. */
  function XSum(a: nat, b: nat): (r: nat)
    requires a <= SIZE_MAX && b <= SIZE_MAX
    ensures r == if a + b <= SIZE_MAX then a + b else SIZE_MAX
  {
    var sum := if a + b <= SIZE_MAX then a + b else a + b - (SIZE_MAX + 1);
    if a <= sum then sum else SIZE_MAX
  }

  function XTimes(n: nat, size: nat): (r: nat)
    requires 0 < size
    ensures r == if n * size <= SIZE_MAX then n * size else SIZE_MAX
  {
    QuotientBound(n, size, SIZE_MAX);
    if n <= SIZE_MAX / size then n * size else SIZE_MAX
  }

  lemma QuotientBound(n: nat, d: nat, m: nat)
    requires 0 < d
    ensures n <= m / d <==> n * d <= m
  {
    DivLess(m, d, n);
  }

  // ------------------------------------------------------------------- types

  /** The integer types by size; Exact(n) is intn_t and Fast(n) is int_fastn_t. */
  datatype Kind = CharKind | ShortKind | IntKind | LongKind | LongLongKind | Exact(bits: nat) | Fast(bits: nat)

  /** arg_type; Count is the pointer that %n stores through. */
  datatype ArgType =
    | NoArg
    | Integer(kind: Kind, signed: bool)
    | Count(kind: Kind)
    | Double | LongDouble | Char | WideChar | String | WideString | Pointer
    | U8String | U16String | U32String

  const INT := Integer(IntKind, true)

  /** The smallest of int, long and long long that holds a system type. */
  datatype Rank = FitsInt | FitsLong | NeedsLongLong

  /** What the preprocessor and the sizes of the platform decide. */
  datatype Config = Config(
    intmax: Rank, size: Rank, ptrdiff: Rank, int64NeedsLongLong: bool,
    hasWint: bool, flagI: bool, upperB: bool, withN: bool, unistdio: bool,
    onlyAscii: bool, apple: bool, windows: bool)

  // ---------------------------------------------------------------- the text

  function CharAt(f: string, i: nat): char
    requires i <= |f|
  {
    if i < |f| then f[i] else '\0'
  }

  function DigitsEnd(f: string, i: nat): (j: nat)
    requires i <= |f|
    ensures i <= j <= |f|
    ensures forall k :: i <= k < j ==> IsDecimal(f[k])
    ensures !IsDecimal(CharAt(f, j))
    decreases |f| - i
  {
    if IsDecimal(CharAt(f, i)) then DigitsEnd(f, i + 1) else i
  }

  lemma DigitsAreHexText(f: string, i: nat, j: nat)
    requires i <= j <= |f| && forall k :: i <= k < j ==> IsDecimal(f[k])
    ensures IsHexText(f[i..j])
  {}

  function Number(f: string, i: nat, j: nat): nat
    requires i <= j <= |f| && forall k :: i <= k < j ==> IsDecimal(f[k])
  {
    DigitsAreHexText(f, i, j);
    Value(f[i..j], 10)
  }

  /** The n of "n$": absent, not acceptable, or an argument index. */
  datatype Position = Absent | Wrong | Here(index: nat, next: nat)

  function Positional(f: string, i: nat): (p: Position)
    requires i <= |f|
    ensures p.Here? ==> i < p.next <= |f| && p.index < ARG_NONE
  {
    var j := DigitsEnd(f, i);
    if j == i || CharAt(f, j) != '$' then Absent
    else
      var n := Number(f, i, j);
      if n == 0 || n >= SIZE_MAX then Wrong else Here(n - 1, j + 1)
  }

  predicate IsFlag(c: char, config: Config) {
    c in "'-+ #0" || (config.flagI && c == 'I')
  }

  function FlagsEnd(f: CString, i: nat, config: Config): (j: nat)
    requires i <= |f|
    ensures i <= j <= |f|
    ensures forall k :: i <= k < j ==> IsFlag(f[k], config)
    decreases |f| - i
  {
    if i < |f| && IsFlag(f[i], config) then FlagsEnd(f, i + 1, config) else i
  }

  function CharsOf(s: string): set<char> {
    set c | c in s
  }

  datatype Field = NoField | Field(start: nat, end: nat)

  function Length(field: Field): int {
    if field.NoField? then 0 else field.end - field.start
  }

  /** A width or precision: its text, the argument it takes if any, and how to go on. */
  datatype LexField = Bad | Got(field: Field, index: nat, next: nat, posn: nat)

  /** What follows a '*'; posn is the number of arguments taken without a position so far. */
  function Star(f: CString, i: nat, posn: nat, field: Field): (r: LexField)
    requires i <= |f|
    ensures r.Got? ==> i <= r.next <= |f| && posn <= r.posn && r.index < ARG_NONE
  {
    match Positional(f, i)
    case Wrong => Bad
    case Here(index, next) => Got(field, index, next, posn)
    case Absent => if posn >= ARG_NONE then Bad else Got(field, posn, i, posn + 1)
  }

  function Width(f: CString, i: nat, posn: nat): (r: LexField)
    requires i <= |f|
    ensures r.Got? ==> i <= r.next <= |f| && posn <= r.posn
    ensures r.Got? && r.field.Field? ==> r.field.start == i < r.field.end <= r.next
  {
    if CharAt(f, i) == '*' then Star(f, i + 1, posn, Field(i, i + 1))
    else
      var j := DigitsEnd(f, i);
      Got(if j > i then Field(i, j) else NoField, ARG_NONE, j, posn)
  }

  function Precision(f: CString, i: nat, posn: nat): (r: LexField)
    requires i <= |f|
    ensures r.Got? ==> i <= r.next <= |f| && posn <= r.posn
    ensures r.Got? && r.field.Field? ==> r.field.start == i < r.field.end <= r.next
  {
    if CharAt(f, i) != '.' then Got(NoField, ARG_NONE, i, posn)
    else if CharAt(f, i + 1) == '*' then Star(f, i + 2, posn, Field(i, i + 2))
    else
      var j := DigitsEnd(f, i + 1);
      Got(Field(i, j), ARG_NONE, j, posn)
  }

  /** The size specifiers: an integer type, and whether floating-point arguments are long double. */
  datatype Modifier = Modifier(kind: Kind, longDouble: bool, next: nat)

  function Ranked(rank: Rank, next: nat): Modifier {
    match rank
    case NeedsLongLong => Modifier(LongLongKind, true, next)
    case FitsLong => Modifier(LongKind, false, next)
    case FitsInt => Modifier(IntKind, false, next)
  }

  function Size(f: CString, i: nat, config: Config): (m: Modifier)
    requires i <= |f|
    ensures i <= m.next <= |f|
  {
    var plain := Modifier(IntKind, false, i);
    match CharAt(f, i)
    case 'h' =>
      if CharAt(f, i + 1) == 'h' then Modifier(CharKind, false, i + 2) else Modifier(ShortKind, false, i + 1)
    case 'l' =>
      if CharAt(f, i + 1) == 'l' then Modifier(LongLongKind, true, i + 2) else Modifier(LongKind, false, i + 1)
    case 'j' => Ranked(config.intmax, i + 1)
    case 'z' => Ranked(config.size, i + 1)
    case 'Z' => Ranked(config.size, i + 1)
    case 't' => Ranked(config.ptrdiff, i + 1)
    case 'w' =>
      if CharAt(f, i + 1) == 'f' then
        var n := Bits(f, i + 2);
        if n == 0 then plain else Modifier(Fast(n), false, i + 2 + if n == 8 then 1 else 2)
      else
        var n := Bits(f, i + 1);
        if n == 0 then plain else Modifier(Exact(n), false, i + 1 + if n == 8 then 1 else 2)
    case 'L' => Modifier(LongLongKind, true, i + 1)
    case 'q' =>
      if config.apple then Ranked(if config.int64NeedsLongLong then NeedsLongLong else FitsLong, i + 1) else plain
    case 'I' =>
      if config.windows && CharAt(f, i + 1) == '6' && CharAt(f, i + 2) == '4' then
        Ranked(if config.int64NeedsLongLong then NeedsLongLong else FitsLong, i + 3)
      else plain
    case _ => plain
  }

  /** One of the widths 8, 16, 32 and 64, or 0 if the text is none of them. */
  function Bits(f: string, i: nat): (n: nat)
    requires i <= |f|
    ensures n in {0, 8, 16, 32, 64}
    ensures n == 8 ==> i + 1 <= |f|
    ensures n > 8 ==> i + 2 <= |f|
  {
    if CharAt(f, i) == '8' && i < |f| then 8
    else if i + 1 < |f| && f[i..i + 2] == "16" then 16
    else if i + 1 < |f| && f[i..i + 2] == "32" then 32
    else if i + 1 < |f| && f[i..i + 2] == "64" then 64
    else 0
  }

  /** The type that a conversion demands, and the conversion as it is recorded. */
  function Conversion(c: char, m: Modifier, config: Config): Option<(ArgType, char)> {
    var wide := m.kind == LongKind || m.kind == LongLongKind;
    if c in "di" then Some((Integer(m.kind, true), c))
    else if c in "bouxX" || (config.upperB && c == 'B') then Some((Integer(m.kind, false), c))
    else if c in "fFeEgGaA" then Some((if m.longDouble then LongDouble else Double, c))
    else if c == 'c' && wide then if config.hasWint then Some((WideChar, c)) else None
    else if c == 'c' then Some((Char, c))
    else if c == 'C' && config.hasWint then Some((WideChar, 'c'))
    else if c == 's' then Some((if wide then WideString else String, c))
    else if c == 'S' then Some((WideString, 's'))
    else if c == 'p' then Some((Pointer, c))
    else if c == 'n' && config.withN then Some((Count(m.kind), c))
    else if c == 'U' && config.unistdio then
      Some((if m.kind == LongLongKind then U32String else if m.kind == LongKind then U16String else U8String, c))
    else if c == '%' then Some((NoArg, c))
    else None
  }

  // ---------------------------------------------------- the directives of a text

  datatype Directive = Directive(
    start: nat, end: nat, flags: set<char>,
    width: Field, widthIndex: nat, precision: Field, precisionIndex: nat,
    conversion: char, argIndex: nat)

  /** A directive, the type of its argument, and the number of arguments taken so far. */
  datatype Lexed = Lexed(d: Directive, argType: ArgType, posn: nat)

  /** The directive whose '%' is at `start`. */
  function LexDirective(f: CString, start: nat, posn: nat, config: Config): (r: Option<Lexed>)
    requires start < |f|
    ensures r.Some? ==> r.value.d.start == start && start + 1 < r.value.d.end <= |f| && posn <= r.value.posn
  {
    var p := Positional(f, start + 1);
    if p.Wrong? then None
    else
      var i := if p.Here? then p.next else start + 1;
      var j := FlagsEnd(f, i, config);
      LexBody(f, j, posn, config, if p.Here? then p.index else ARG_NONE, Begun(start, CharsOf(f[i..j])))
  }

  /** A directive with nothing but flags. */
  function Begun(start: nat, flags: set<char>): Directive {
    Directive(start, start, flags, NoField, ARG_NONE, NoField, ARG_NONE, '%', ARG_NONE)
  }

  /** A directive from its width on. */
  function LexBody(f: CString, i: nat, posn: nat, config: Config, index: nat, d: Directive): (r: Option<Lexed>)
    requires i <= |f|
    ensures r.Some? ==> r.value.d.start == d.start && i < r.value.d.end <= |f| && posn <= r.value.posn
  {
    var w := Width(f, i, posn);
    if w.Bad? then None
    else
      var q := Precision(f, w.next, w.posn);
      if q.Bad? then None
      else
        LexConversion(f, Size(f, q.next, config), config, q.posn, index,
                      d.(width := w.field, widthIndex := w.index, precision := q.field, precisionIndex := q.index))
  }

  /** The end of a directive, given its beginning. */
  function LexConversion(f: CString, m: Modifier, config: Config, posn: nat, index: nat, d: Directive)
      : (r: Option<Lexed>)
    requires m.next <= |f|
    ensures r.Some? ==> m.next < r.value.d.end == m.next + 1 <= |f|
    ensures r.Some? ==> posn <= r.value.posn <= posn + 1
    ensures r.Some? ==> var v := r.value.d;
                        v == d.(end := v.end, conversion := v.conversion, argIndex := v.argIndex)
  {
    var c := CharAt(f, m.next);
    match Conversion(c, m, config)
    case None => None
    case Some((argType, conversion)) =>
      var e := d.(end := m.next + 1, conversion := conversion);
      if argType == NoArg then Some(Lexed(e, NoArg, posn))
      else if index != ARG_NONE then Some(Lexed(e.(argIndex := index), argType, posn))
      else if posn >= ARG_NONE then None
      else Some(Lexed(e.(argIndex := posn), argType, posn + 1))
  }

  /** All directives of the text from i on, or None if one of them is malformed. */
  function Lex(f: CString, i: nat, posn: nat, config: Config): Option<seq<Lexed>>
    requires i <= |f|
    decreases |f| - i
  {
    if i == |f| then Some([])
    else if f[i] == '%' then
      match LexDirective(f, i, posn, config)
      case None => None
      case Some(x) => Prepend([x], Lex(f, x.d.end, x.posn, config))
    else if config.onlyAscii && f[i] as int >= 128 then None
    else Lex(f, i + 1, posn, config)
  }

  function Prepend(a: seq<Lexed>, b: Option<seq<Lexed>>): Option<seq<Lexed>> {
    if b.None? then None else Some(a + b.value)
  }

  // ---------------------------------------------------- the table of arguments

  /** Argument `index` is used with a type. */
  datatype Demand = Demand(index: nat, argType: ArgType)

  function FieldDemands(index: nat): seq<Demand> {
    if index != ARG_NONE then [Demand(index, INT)] else []
  }

  function ArgDemands(x: Lexed): seq<Demand> {
    if x.argType != NoArg then [Demand(x.d.argIndex, x.argType)] else []
  }

  function Demands(x: Lexed): seq<Demand> {
    FieldDemands(x.d.widthIndex) + FieldDemands(x.d.precisionIndex) + ArgDemands(x)
  }

  function AllDemands(xs: seq<Lexed>): seq<Demand> {
    if xs == [] then [] else AllDemands(xs[..|xs| - 1]) + Demands(xs[|xs| - 1])
  }

  /** A table long enough for argument n. */
  function Padded(table: seq<ArgType>, n: nat): (r: seq<ArgType>)
    ensures |r| == if n < |table| then |table| else n + 1
  {
    if n < |table| then table else table + seq(n + 1 - |table|, _ => NoArg)
  }

  function Registered(table: seq<ArgType>, d: Demand): Option<seq<ArgType>> {
    var t := Padded(table, d.index);
    if t[d.index] == NoArg then Some(t[d.index := d.argType])
    else if t[d.index] == d.argType then Some(t)
    else None
  }

  /** A table after further demands; None if an argument is used with two types. */
  function Extended(table: seq<ArgType>, demands: seq<Demand>): Option<seq<ArgType>> {
    if demands == [] then Some(table)
    else
      match Extended(table, demands[..|demands| - 1])
      case None => None
      case Some(t) => Registered(t, demands[|demands| - 1])
  }

  function Table(demands: seq<Demand>): Option<seq<ArgType>> {
    Extended([], demands)
  }

  lemma {:induction false} ExtendedJoin(t: seq<ArgType>, a: seq<Demand>, b: seq<Demand>)
    ensures Extended(t, a + b) == match Extended(t, a) case None => None case Some(u) => Extended(u, b)
    decreases |b|
  {
    hide Registered;
    if b == [] {
      assert a + b == a;
    } else {
      assert (a + b)[..|a + b| - 1] == a + b[..|b| - 1];
      ExtendedJoin(t, a, b[..|b| - 1]);
    }
  }

  lemma ExtendedOne(t: seq<ArgType>, d: Demand)
    ensures Extended(t, [d]) == Registered(t, d)
  {
    hide Registered;
    assert [d][..0] == [];
  }

  datatype Parsed = Parsed(directives: seq<Directive>, arguments: seq<ArgType>)

  function DirectivesOf(xs: seq<Lexed>): (r: seq<Directive>)
    ensures |r| == |xs| && forall k :: 0 <= k < |r| ==> r[k] == xs[k].d
  {
    seq(|xs|, k requires 0 <= k < |xs| => xs[k].d)
  }

  /** The meaning of a format string: None if printf_parse reports it as invalid. */
  function Parse(f: CString, config: Config): Option<Parsed> {
    match Lex(f, 0, 0, config)
    case None => None
    case Some(xs) =>
      match Table(AllDemands(xs))
      case None => None
      case Some(t) => Some(Parsed(DirectivesOf(xs), t))
  }

  // ----------------------------------------------------------------- the code

  datatype Status = Ok | EInval | ENoMem

  /** The table of arguments may fail to grow for argument n: by lack of memory, or because its size overflows. */
  ghost predicate Outgrows(n: nat) {
    DIRECT_ALLOC <= n && (MEMORY_LASTS ==> SIZE_MAX <= 2 * n * SIZEOF_ARGUMENT)
  }

  /** The table of directives may fail to grow beyond n entries. */
  ghost predicate TooMany(n: nat) {
    DIRECT_ALLOC <= n && (MEMORY_LASTS ==> SIZE_MAX <= 2 * n * SIZEOF_DIRECTIVE)
  }

  lemma OutgrowsMore(m: nat, n: nat)
    requires m <= n
    ensures Outgrows(m) ==> Outgrows(n)
    ensures TooMany(m) ==> TooMany(n)
  {
    MulMono(2 * m, 2 * n, SIZEOF_ARGUMENT);
    MulMono(2 * m, 2 * n, SIZEOF_DIRECTIVE);
  }

  lemma GrownTooFar(capacity: nat, n: nat)
    requires DIRECT_ALLOC <= n && capacity <= 2 * n
    ensures SIZE_MAX <= capacity * SIZEOF_ARGUMENT ==> Outgrows(n)
    ensures SIZE_MAX <= capacity * SIZEOF_DIRECTIVE ==> TooMany(n)
  {
    MulMono(capacity, 2 * n, SIZEOF_ARGUMENT);
    MulMono(capacity, 2 * n, SIZEOF_DIRECTIVE);
  }

  lemma LongText(f: CString, n: nat)
    requires n <= |f|
    ensures Outgrows(n) || TooMany(n) ==> RunsOut(f)
  {
    OutgrowsMore(n, |f|);
  }

  lemma HighPosition(f: CString, i: nat)
    requires i <= |f| && Positional(f, i).Here? && Outgrows(Positional(f, i).index)
    ensures RunsOut(f)
  {}

  /** The text is long, or names an argument so high, that a table may fail to grow. */
  ghost predicate RunsOut(f: CString) {
    || Outgrows(|f|) || TooMany(|f|)
    || exists i :: 0 <= i <= |f| && Positional(f, i).Here? && Outgrows(Positional(f, i).index)
  }

  /** The struct `arguments`: a table that grows, of which `count` entries are in use. */
  class Arguments {
    var count: nat
    var arg: array<ArgType>

    ghost predicate Valid()
      reads this
    {
      count <= arg.Length && DIRECT_ALLOC <= arg.Length <= SIZE_MAX
    }

    ghost function Types(): seq<ArgType>
      requires Valid()
      reads this, arg
    {
      arg[..count]
    }

    constructor ()
      ensures Valid() && fresh(arg) && Types() == []
    {
      count := 0;
      arg := new ArgType[DIRECT_ALLOC];
    }

    /** Makes room for argument n. */
    method Reserve(n: nat) returns (status: Status)
      requires Valid() && n < ARG_NONE
      modifies this
      ensures Valid() && (arg == old(arg) || fresh(arg)) && Types() == old(Types())
      ensures status == Ok ==> n < arg.Length
      ensures status == Ok || (status == ENoMem && Outgrows(n))
    {
      if n >= arg.Length {
        var capacity := XTimes(arg.Length, 2);
        if capacity <= n {
          capacity := XSum(n, 1);
        }
        var memorySize := XTimes(capacity, SIZEOF_ARGUMENT);
        GrownTooFar(capacity, n);
        var failed: bool := *;
        if memorySize == SIZE_MAX || (failed && !MEMORY_LASTS) {
          return ENoMem;
        }
        var memory := new ArgType[capacity];
        forall i | 0 <= i < count {
          memory[i] := arg[i];
        }
        arg := memory;
      }
      status := Ok;
    }

    /** New entries have no type yet. */
    method Fill(n: nat)
      requires Valid() && n < arg.Length
      modifies `count, arg
      ensures Valid() && Types() == Padded(old(Types()), n)
    {
      ghost var before := Types();
      while count <= n
        invariant Valid() && |before| <= count
        invariant forall k :: 0 <= k < count ==> arg[k] == if k < |before| then before[k] else NoArg
        invariant count <= if n < |before| then |before| else n + 1
      {
        arg[count] := NoArg;
        count := count + 1;
      }
    }

    /** REGISTER_ARG */
    method Register(n: nat, argType: ArgType) returns (status: Status)
      requires Valid() && n < ARG_NONE
      modifies this, arg
      ensures Valid() && (arg == old(arg) || fresh(arg))
      ensures status == Ok ==> Registered(old(Types()), Demand(n, argType)) == Some(Types())
      ensures status == EInval ==> Registered(old(Types()), Demand(n, argType)) == None
      ensures status == ENoMem ==> Outgrows(n)
    {
      status := Reserve(n);
      if status != Ok {
        return;
      }
      ghost var before := Types();
      Fill(n);
      if arg[n] == NoArg {
        arg[n] := argType;
        assert Types() == Padded(before, n)[n := argType];
      } else if arg[n] != argType {
        return EInval;
      }
    }
  }

  /** The struct `char_directives`: a table with room for one entry more than it has. */
  class Directives {
    var count: nat
    var dir: array<Directive>
    var maxWidthLength: nat
    var maxPrecisionLength: nat

    ghost predicate Valid()
      reads this
    {
      count < dir.Length && DIRECT_ALLOC <= dir.Length <= SIZE_MAX
    }

    ghost function Contents(): seq<Directive>
      requires Valid()
      reads this, dir
    {
      dir[..count]
    }

    constructor ()
      ensures Valid() && fresh(dir) && Contents() == [] && maxWidthLength == maxPrecisionLength == 0
    {
      count := 0;
      dir := new Directive[DIRECT_ALLOC];
      maxWidthLength, maxPrecisionLength := 0, 0;
    }

    /** Makes room for the sentinel after the directives in use. */
    method Reserve() returns (status: Status)
      requires count <= dir.Length && DIRECT_ALLOC <= dir.Length <= SIZE_MAX
      modifies `dir
      ensures dir == old(dir) || fresh(dir)
      ensures status == Ok ==> Valid() && Contents() == old(dir[..count])
      ensures status == Ok || (status == ENoMem && TooMany(count))
    {
      if count >= dir.Length {
        var capacity := XTimes(dir.Length, 2);
        var memorySize := XTimes(capacity, SIZEOF_DIRECTIVE);
        GrownTooFar(capacity, count);
        var failed: bool := *;
        if memorySize == SIZE_MAX || (failed && !MEMORY_LASTS) {
          return ENoMem;
        }
        SizeBound(capacity, SIZEOF_DIRECTIVE);
        var memory := new Directive[capacity];
        forall i | 0 <= i < count {
          memory[i] := dir[i];
        }
        dir := memory;
      }
      status := Ok;
    }

    /** Completes the directive in the next free slot, and makes room for another. */
    method Append(d: Directive) returns (status: Status)
      requires Valid()
      modifies this, dir
      ensures dir == old(dir) || fresh(dir)
      ensures status == Ok ==> Valid() && Contents() == old(Contents()) + [d]
      ensures status == Ok || (status == ENoMem && TooMany(old(count) + 1))
      ensures maxWidthLength == old(maxWidthLength) && maxPrecisionLength == old(maxPrecisionLength)
    {
      ghost var before := Contents();
      dir[count] := d;
      count := count + 1;
      assert dir[..count] == before + [d];
      status := Reserve();
    }
  }

  /** A saturated size is not reached by an object that fits. */
  lemma SizeBound(n: nat, size: nat)
    requires 0 < size && n * size < SIZE_MAX
    ensures n < SIZE_MAX
  {
    MulMono(1, size, n);
  }

  /** A position "n$", read twice: once to see whether there is one, once for its value. */
  method ReadPosition(f: CString, i: nat) returns (p: Position)
    requires i <= |f|
    ensures p == Positional(f, i)
  {
    p := Absent;
    if IsDecimal(CharAt(f, i)) {
      var np := i;
      while IsDecimal(CharAt(f, np))
        invariant i <= np <= |f| && DigitsEnd(f, np) == DigitsEnd(f, i)
        decreases |f| - np
      {
        np := np + 1;
      }
      if CharAt(f, np) == '$' {
        var n := ReadNumber(f, i);
        if n == 0 || n == SIZE_MAX {
          return Wrong;
        }
        p := Here(n - 1, np + 1);
      }
    }
  }

  method ReadNumber(f: CString, i: nat) returns (n: nat)
    requires i <= |f|
    ensures n == var v := Number(f, i, DigitsEnd(f, i)); if v <= SIZE_MAX then v else SIZE_MAX
  {
    n := 0;
    var np := i;
    NumberEmpty(f, i);
    while IsDecimal(CharAt(f, np))
      invariant i <= np <= |f| && DigitsEnd(f, np) == DigitsEnd(f, i)
      invariant forall k :: i <= k < np ==> IsDecimal(f[k])
      invariant n == var v := Number(f, i, np); if v <= SIZE_MAX then v else SIZE_MAX
      decreases |f| - np
    {
      NumberNext(f, i, np);
      n := XSum(XTimes(n, 10), Weight(f[np]));
      np := np + 1;
    }
  }

  lemma NumberEmpty(f: string, i: nat)
    requires i <= |f|
    ensures Number(f, i, i) == 0
  {
    assert f[i..i] == "";
  }

  lemma NumberNext(f: string, i: nat, j: nat)
    requires i <= j < |f| && forall k :: i <= k <= j ==> IsDecimal(f[k])
    ensures Number(f, i, j + 1) == Number(f, i, j) * 10 + Weight(f[j])
  {
    assert f[i..j + 1] == f[i..j] + [f[j]];
    DigitsAreHexText(f, i, j);
    ValueSnoc(f[i..j], f[j], 10);
  }

  method ReadFlags(f: CString, i: nat, config: Config) returns (flags: set<char>, j: nat)
    requires i <= |f|
    ensures j == FlagsEnd(f, i, config) && flags == CharsOf(f[i..j])
  {
    flags, j := {}, i;
    while j < |f| && IsFlag(f[j], config)
      invariant i <= j <= |f| && FlagsEnd(f, j, config) == FlagsEnd(f, i, config)
      invariant flags == CharsOf(f[i..j])
    {
      assert f[i..j + 1] == f[i..j] + [f[j]];
      flags := flags + {f[j]};
      j := j + 1;
    }
  }

  method SkipDigits(f: CString, i: nat) returns (j: nat)
    requires i <= |f|
    ensures j == DigitsEnd(f, i)
  {
    j := i;
    while IsDecimal(CharAt(f, j))
      invariant i <= j <= |f| && DigitsEnd(f, j) == DigitsEnd(f, i)
      decreases |f| - j
    {
      j := j + 1;
    }
  }

  /** The argument of a '*' in a width or precision. */
  method ReadStar(f: CString, i: nat, posn: nat, field: Field, a: Arguments) returns (status: Status, r: LexField)
    requires i <= |f| && a.Valid() && posn <= ARG_NONE
    modifies a, a.arg
    ensures a.Valid() && (a.arg == old(a.arg) || fresh(a.arg))
    ensures status == Ok ==> r == Star(f, i, posn, field) && r.Got? && r.posn <= ARG_NONE
    ensures status == Ok ==> Registered(old(a.Types()), Demand(r.index, INT)) == Some(a.Types())
    ensures status == EInval ==>
              var s := Star(f, i, posn, field);
              s.Bad? || Registered(old(a.Types()), Demand(s.index, INT)) == None
    ensures status == ENoMem ==> var s := Star(f, i, posn, field); s.Got? && Outgrows(s.index)
    ensures status == ENoMem && posn <= |f| ==> RunsOut(f)
  {
    r := Bad;
    var p := ReadPosition(f, i);
    if p.Wrong? {
      return EInval, r;
    }
    var index, next, taken := ARG_NONE, i, posn;
    if p.Here? {
      index, next := p.index, p.next;
    }
    if index == ARG_NONE {
      index, taken := taken, taken + 1;
      if index == ARG_NONE {
        return EInval, r;
      }
    }
    if posn <= |f| { LongText(f, posn); }
    status := a.Register(index, INT);
    r := Got(field, index, next, taken);
  }

  method ReadWidth(f: CString, i: nat, posn: nat, a: Arguments) returns (status: Status, r: LexField)
    requires i <= |f| && a.Valid() && posn <= ARG_NONE
    modifies a, a.arg
    ensures a.Valid() && (a.arg == old(a.arg) || fresh(a.arg))
    ensures Outcome(status, old(a.Types()), Width(f, i, posn), a.Types())
    ensures status == ENoMem && posn <= i ==> RunsOut(f)
    ensures status == Ok && posn <= i ==> r.Got? && r.posn <= r.next
    ensures status == Ok ==> r == Width(f, i, posn) && r.posn <= ARG_NONE
  {
    hide Registered, Positional;
    if CharAt(f, i) == '*' {
      status, r := ReadStar(f, i + 1, posn, Field(i, i + 1), a);
      StarOutcome(status, old(a.Types()), Width(f, i, posn), a.Types());
    } else {
      var j := SkipDigits(f, i);
      return Ok, Got(if j > i then Field(i, j) else NoField, ARG_NONE, j, posn);
    }
  }

  /** What reading a width or precision that is specified by s does to the table of arguments. */
  ghost predicate Outcome(status: Status, before: seq<ArgType>, s: LexField, after: seq<ArgType>) {
    match status
    case Ok => s.Got? && Extended(before, FieldDemands(s.index)) == Some(after)
    case EInval => s.Bad? || Extended(before, FieldDemands(s.index)) == None
    case ENoMem => s.Got? && s.index < ARG_NONE && Outgrows(s.index)
  }

  lemma StarOutcome(status: Status, before: seq<ArgType>, s: LexField, after: seq<ArgType>)
    requires s.Got? ==> s.index < ARG_NONE
    requires status == Ok ==> s.Got? && Registered(before, Demand(s.index, INT)) == Some(after)
    requires status == EInval ==> s.Bad? || Registered(before, Demand(s.index, INT)) == None
    requires status == ENoMem ==> s.Got? && Outgrows(s.index)
    ensures Outcome(status, before, s, after)
  {
    hide Registered;
    if s.Got? { ExtendedOne(before, Demand(s.index, INT)); }
  }

  method ReadPrecision(f: CString, i: nat, posn: nat, a: Arguments) returns (status: Status, r: LexField)
    requires i <= |f| && a.Valid() && posn <= ARG_NONE
    modifies a, a.arg
    ensures a.Valid() && (a.arg == old(a.arg) || fresh(a.arg))
    ensures Outcome(status, old(a.Types()), Precision(f, i, posn), a.Types())
    ensures status == ENoMem && posn <= i ==> RunsOut(f)
    ensures status == Ok && posn <= i ==> r.Got? && r.posn <= r.next
    ensures status == Ok ==> r == Precision(f, i, posn) && r.posn <= ARG_NONE
  {
    hide Registered, Positional;
    if CharAt(f, i) == '.' {
      if CharAt(f, i + 1) == '*' {
        status, r := ReadStar(f, i + 2, posn, Field(i, i + 2), a);
        StarOutcome(status, old(a.Types()), Precision(f, i, posn), a.Types());
      } else {
        var j := SkipDigits(f, i + 1);
        return Ok, Got(Field(i, j), ARG_NONE, j, posn);
      }
    } else {
      return Ok, Got(NoField, ARG_NONE, i, posn);
    }
  }

  /** The conversion character, and the argument it takes. */
  method ReadConversion(f: CString, m: Modifier, config: Config, posn: nat, index: nat, start: Directive, a: Arguments)
      returns (status: Status, r: Lexed)
    requires m.next <= |f| && a.Valid() && posn <= ARG_NONE && index <= ARG_NONE
    modifies a, a.arg
    ensures a.Valid() && (a.arg == old(a.arg) || fresh(a.arg))
    ensures var s := LexConversion(f, m, config, posn, index, start);
            match status
            case Ok => s == Some(r) && Extended(old(a.Types()), ArgDemands(r)) == Some(a.Types()) && r.posn <= ARG_NONE
            case EInval => s.None? || Extended(old(a.Types()), ArgDemands(s.value)) == None
            case ENoMem => s.Some? && s.value.argType != NoArg && Outgrows(s.value.d.argIndex)
    ensures status == ENoMem ==> Outgrows(if index == ARG_NONE then posn else index)
  {
    hide Registered, Conversion;
    r := Lexed(start, NoArg, posn);
    status := Ok;
    var c := CharAt(f, m.next);
    var conversion := Conversion(c, m, config);
    if conversion.None? {
      return EInval, r;
    }
    var argType := conversion.value.0;
    var e := start.(end := m.next + 1, conversion := conversion.value.1);
    var taken := posn;
    if argType != NoArg {
      e := e.(argIndex := index);
      if e.argIndex == ARG_NONE {
        e, taken := e.(argIndex := taken), taken + 1;
        if e.argIndex == ARG_NONE {
          return EInval, r;
        }
      }
      ExtendedOne(a.Types(), Demand(e.argIndex, argType));
      status := a.Register(e.argIndex, argType);
    }
    r := Lexed(e, argType, taken);
  }

  /** Width and precision. */
  method ReadFields(f: CString, i: nat, posn: nat, a: Arguments) returns (status: Status, w: LexField, q: LexField)
    requires i <= |f| && a.Valid() && posn <= ARG_NONE
    modifies a, a.arg
    ensures a.Valid() && (a.arg == old(a.arg) || fresh(a.arg))
    ensures var x := Width(f, i, posn);
            if x.Bad? then status == EInval
            else
              var y := Precision(f, x.next, x.posn);
              match status
              case Ok =>
                && w == x && q == y && q.Got? && q.posn <= ARG_NONE
                && Extended(old(a.Types()), FieldDemands(w.index) + FieldDemands(q.index)) == Some(a.Types())
              case EInval =>
                y.Bad? || Extended(old(a.Types()), FieldDemands(x.index) + FieldDemands(y.index)) == None
              case ENoMem =>
                || (x.index < ARG_NONE && Outgrows(x.index))
                || (y.Got? && y.index < ARG_NONE && Outgrows(y.index))
    ensures status == ENoMem && posn <= i ==> RunsOut(f)
    ensures status == Ok && posn <= i ==> q.posn <= q.next
  {
    hide Extended, FieldDemands, Width, Precision;
    ghost var types := a.Types();
    ghost var x := Width(f, i, posn);
    if x.Got? {
      ghost var y := Precision(f, x.next, x.posn);
      if y.Got? { ExtendedJoin(types, FieldDemands(x.index), FieldDemands(y.index)); }
    }
    q := Bad;
    status, w := ReadWidth(f, i, posn, a);
    if status == Ok {
      status, q := ReadPrecision(f, w.next, w.posn, a);
    }
  }

  /** What reading a directive that is specified by s does to the table of arguments. */
  ghost predicate Read(status: Status, before: seq<ArgType>, s: Option<Lexed>, after: seq<ArgType>) {
    match status
    case Ok => s.Some? && Extended(before, Demands(s.value)) == Some(after)
    case EInval => s.None? || Extended(before, Demands(s.value)) == None
    case ENoMem => s.Some? ==> exists d :: d in Demands(s.value) && Outgrows(d.index)
  }

  method ReadBody(f: CString, i: nat, posn: nat, config: Config, index: nat, start: Directive, a: Arguments)
      returns (status: Status, r: Lexed)
    requires i <= |f| && a.Valid() && posn <= ARG_NONE && index <= ARG_NONE
    modifies a, a.arg
    ensures a.Valid() && (a.arg == old(a.arg) || fresh(a.arg))
    ensures Read(status, old(a.Types()), LexBody(f, i, posn, config, index, start), a.Types())
    ensures status == Ok ==> LexBody(f, i, posn, config, index, start) == Some(r) && r.posn <= ARG_NONE
    ensures status == ENoMem && posn <= i ==> RunsOut(f) || (index != ARG_NONE && Outgrows(index))
    ensures status == Ok && posn <= i ==> r.posn <= r.d.end
  {
    hide Extended, Width, Precision, Size, FieldDemands, ArgDemands, Outgrows, RunsOut, TooMany, Conversion;
    ghost var s := LexBody(f, i, posn, config, index, start);
    if s.Some? {
      var stars := FieldDemands(s.value.d.widthIndex) + FieldDemands(s.value.d.precisionIndex);
      ExtendedJoin(a.Types(), stars, ArgDemands(s.value));
    }
    r := Lexed(start, NoArg, posn);
    var w, q;
    status, w, q := ReadFields(f, i, posn, a);
    if status != Ok {
      if status == ENoMem && s.Some? { LargeField(s.value); }
      return;
    }
    var m := Size(f, q.next, config);
    status, r := ReadConversion(f, m, config, q.posn, index,
      start.(width := w.field, widthIndex := w.index, precision := q.field, precisionIndex := q.index), a);
    if status == ENoMem {
      LargeArg(s.value);
      if posn <= i { LongText(f, q.posn); }
    }
  }

  method ReadDirective(f: CString, start: nat, posn: nat, config: Config, a: Arguments)
      returns (status: Status, r: Lexed)
    requires start < |f| && a.Valid() && posn <= ARG_NONE
    modifies a, a.arg
    ensures a.Valid() && (a.arg == old(a.arg) || fresh(a.arg))
    ensures Read(status, old(a.Types()), LexDirective(f, start, posn, config), a.Types())
    ensures status == Ok ==> LexDirective(f, start, posn, config) == Some(r) && r.posn <= ARG_NONE
    ensures status == ENoMem && posn <= start ==> RunsOut(f)
    ensures status == Ok && posn <= start ==> r.posn <= r.d.end
  {
    hide Extended, LexBody, FlagsEnd, Demands, Outgrows, RunsOut, TooMany, Positional;
    var p := ReadPosition(f, start + 1);
    if p.Wrong? {
      return EInval, Lexed(Begun(start, {}), NoArg, posn);
    }
    var flags, j := ReadFlags(f, if p.Here? then p.next else start + 1, config);
    status, r := ReadBody(f, j, posn, config, if p.Here? then p.index else ARG_NONE, Begun(start, flags), a);
    if status == ENoMem && p.Here? && Outgrows(p.index) { HighPosition(f, start + 1); }
  }

  lemma LargeField(x: Lexed)
    requires || (x.d.widthIndex < ARG_NONE && Outgrows(x.d.widthIndex))
             || (x.d.precisionIndex < ARG_NONE && Outgrows(x.d.precisionIndex))
    ensures exists d :: d in Demands(x) && Outgrows(d.index)
  {
    assert x.d.widthIndex < ARG_NONE ==> Demand(x.d.widthIndex, INT) in FieldDemands(x.d.widthIndex);
    assert x.d.precisionIndex < ARG_NONE ==> Demand(x.d.precisionIndex, INT) in FieldDemands(x.d.precisionIndex);
    if x.d.widthIndex < ARG_NONE && Outgrows(x.d.widthIndex) {
      assert Demand(x.d.widthIndex, INT) in Demands(x);
    } else {
      assert Demand(x.d.precisionIndex, INT) in Demands(x);
    }
  }

  lemma LargeArg(x: Lexed)
    requires x.argType != NoArg && Outgrows(x.d.argIndex)
    ensures exists d :: d in Demands(x) && Outgrows(d.index)
  {
    assert Demand(x.d.argIndex, x.argType) in ArgDemands(x);
    assert Demand(x.d.argIndex, x.argType) in Demands(x);
  }

  // ------------------------------------------------------------ the whole text

  /** The parser has read `items`, stands at cp, and has not refused anything. */
  ghost predicate At(f: CString, config: Config, items: seq<Lexed>, cp: nat, posn: nat, types: seq<ArgType>) {
    && cp <= |f|
    && Lex(f, 0, 0, config) == Prepend(items, Lex(f, cp, posn, config))
    && Table(AllDemands(items)) == Some(types)
  }

  lemma {:induction false} AllDemandsJoin(a: seq<Lexed>, b: seq<Lexed>)
    ensures AllDemands(a + b) == AllDemands(a) + AllDemands(b)
    decreases |b|
  {
    hide Demands;
    if b == [] {
      assert a + b == a;
    } else {
      assert (a + b)[..|a + b| - 1] == a + b[..|b| - 1];
      AllDemandsJoin(a, b[..|b| - 1]);
    }
  }

  lemma AllDemandsOne(x: Lexed)
    ensures AllDemands([x]) == Demands(x)
  {
    hide Demands;
    assert [x][..0] == [];
  }

  lemma AtStart(f: CString, config: Config)
    ensures At(f, config, [], 0, 0, [])
  {
    var r := Lex(f, 0, 0, config);
    if r.Some? { assert [] + r.value == r.value; }
  }

  lemma LexStarts(f: CString, cp: nat, posn: nat, config: Config)
    requires cp < |f| && f[cp] == '%'
    ensures Lex(f, cp, posn, config)
            == match LexDirective(f, cp, posn, config)
               case None => None
               case Some(x) => Prepend([x], Lex(f, x.d.end, x.posn, config))
  {
    hide LexDirective;
  }

  /** The table has room for every argument that is demanded. */
  lemma RoomFor(xs: seq<Lexed>, d: Demand)
    requires d in AllDemands(xs) && Table(AllDemands(xs)).Some?
    ensures d.index < |Table(AllDemands(xs)).value|
  {
    hide AllDemands, Extended;
    var demands := AllDemands(xs);
    var i :| 0 <= i < |demands| && demands[i] == d;
    AllDemandsTyped(xs);
    TableAnswers(demands);
  }

  lemma AtDirective(f: CString, config: Config, items: seq<Lexed>, cp: nat, posn: nat, types: seq<ArgType>,
                    x: Lexed, types': seq<ArgType>)
    requires At(f, config, items, cp, posn, types) && cp < |f| && f[cp] == '%'
    requires LexDirective(f, cp, posn, config) == Some(x) && Extended(types, Demands(x)) == Some(types')
    ensures At(f, config, items + [x], x.d.end, x.posn, types')
  {
    hide LexDirective, Demands, Lex, AllDemands, Extended;
    LexStarts(f, cp, posn, config);
    AllDemandsJoin(items, [x]);
    AllDemandsOne(x);
    ExtendedJoin([], AllDemands(items), Demands(x));
    var rest := Lex(f, x.d.end, x.posn, config);
    if rest.Some? { assert items + ([x] + rest.value) == (items + [x]) + rest.value; }
  }

  /** After a refusal nothing can make the text valid; if memory ran out the tables must outgrow their first size. */
  lemma AtRefusal(f: CString, config: Config, items: seq<Lexed>, cp: nat, posn: nat, types: seq<ArgType>,
                  status: Status, after: seq<ArgType>)
    requires At(f, config, items, cp, posn, types) && cp < |f| && f[cp] == '%' && status != Ok
    requires Read(status, types, LexDirective(f, cp, posn, config), after)
    ensures status == EInval ==> Parse(f, config) == None
    ensures status == ENoMem && Parse(f, config).Some? ==>
              var n := |Parse(f, config).value.arguments|; n > 0 && Outgrows(n - 1)
  {
    hide LexDirective, Demands, Outgrows, Lex, AllDemands, Extended;
    LexStarts(f, cp, posn, config);
    var s := LexDirective(f, cp, posn, config);
    if s.Some? && Lex(f, s.value.d.end, s.value.posn, config).Some? {
      var x, rest := s.value, Lex(f, s.value.d.end, s.value.posn, config).value;
      var all := items + ([x] + rest);
      AllDemandsJoin(items, [x] + rest);
      AllDemandsJoin([x], rest);
      AllDemandsOne(x);
      ExtendedJoin([], AllDemands(items), Demands(x) + AllDemands(rest));
      ExtendedJoin(types, Demands(x), AllDemands(rest));
      if status == ENoMem && Parse(f, config).Some? {
        var d :| d in Demands(x) && Outgrows(d.index);
        RoomFor(all, d);
        OutgrowsMore(d.index, |Parse(f, config).value.arguments| - 1);
      }
    }
  }

  lemma AtOther(f: CString, config: Config, items: seq<Lexed>, cp: nat, posn: nat, types: seq<ArgType>)
    requires At(f, config, items, cp, posn, types) && cp < |f| && f[cp] != '%'
    ensures config.onlyAscii && f[cp] as int >= 128 ==> Parse(f, config) == None
    ensures !(config.onlyAscii && f[cp] as int >= 128) ==> At(f, config, items, cp + 1, posn, types)
  {}

  lemma AtEnd(f: CString, config: Config, items: seq<Lexed>, posn: nat, types: seq<ArgType>)
    requires At(f, config, items, |f|, posn, types)
    ensures Parse(f, config) == Some(Parsed(DirectivesOf(items), types))
  {
    assert items + [] == items;
  }

  lemma AtCount(f: CString, config: Config, items: seq<Lexed>, cp: nat, posn: nat, types: seq<ArgType>)
    requires At(f, config, items, cp, posn, types) && Parse(f, config).Some?
    ensures |items| <= |Parse(f, config).value.directives|
  {}

  ghost predicate Demanded(demands: seq<Demand>, k: int) {
    exists i :: 0 <= i < |demands| && demands[i].index == k
  }

  /** No argument is used with two types. */
  ghost predicate Agreeing(demands: seq<Demand>) {
    forall i, j :: 0 <= i < j < |demands| && demands[i].index == demands[j].index ==>
                     demands[i].argType == demands[j].argType
  }

  ghost predicate Typed(demands: seq<Demand>) {
    forall i :: 0 <= i < |demands| ==> demands[i].argType != NoArg
  }

  /** A table that is as long as the highest index needs and has a type exactly where one is demanded. */
  ghost predicate Answers(t: seq<ArgType>, demands: seq<Demand>) {
    && (forall i :: 0 <= i < |demands| ==> demands[i].index < |t| && t[demands[i].index] == demands[i].argType)
    && (forall k :: 0 <= k < |t| ==> (t[k] != NoArg <==> Demanded(demands, k)))
    && (t != [] ==> Demanded(demands, |t| - 1))
  }

  lemma DemandedLast(before: seq<Demand>, d: Demand, k: int)
    ensures Demanded(before + [d], k) <==> Demanded(before, k) || d.index == k
  {
    var demands := before + [d];
    assert demands[|before|] == d;
    if Demanded(before, k) {
      var i :| 0 <= i < |before| && before[i].index == k;
      assert demands[i].index == k;
    }
  }

  lemma AgreeingBefore(before: seq<Demand>, d: Demand)
    requires Agreeing(before + [d])
    ensures Agreeing(before)
  {
    assert forall i :: 0 <= i < |before| ==> before[i] == (before + [d])[i];
  }

  /** Demands are answered exactly if they agree with each other. */
  lemma {:induction false} TableAnswers(demands: seq<Demand>)
    requires Typed(demands)
    ensures Table(demands).Some? <==> Agreeing(demands)
    ensures Table(demands).Some? ==> Answers(Table(demands).value, demands)
    decreases |demands|
  {
    if demands != [] {
      hide Registered, Agreeing, Answers, Demanded;
      var n := |demands| - 1;
      var before, d := demands[..n], demands[n];
      assert demands == before + [d];
      TableAnswers(before);
      forall k ensures Demanded(demands, k) <==> Demanded(before, k) || d.index == k {
        DemandedLast(before, d, k);
      }
      if Agreeing(demands) { AgreeingBefore(before, d); }
      if Table(before).Some? { LastDemand(Table(before).value, before, d, demands); }
    }
  }

  lemma LastDemand(t: seq<ArgType>, before: seq<Demand>, d: Demand, demands: seq<Demand>)
    requires demands == before + [d] && Typed(demands) && Answers(t, before) && Agreeing(before)
    requires forall k :: Demanded(demands, k) <==> Demanded(before, k) || d.index == k
    ensures Registered(t, d).Some? <==> Agreeing(demands)
    ensures Registered(t, d).Some? ==> Answers(Registered(t, d).value, demands)
  {
    var n := |before|;
    assert forall i :: 0 <= i < n ==> demands[i] == before[i];
    if d.index < |t| && t[d.index] != NoArg {
      var i :| 0 <= i < n && before[i].index == d.index;
      assert t[d.index] == before[i].argType;
      if t[d.index] != d.argType { assert demands[i].argType != demands[n].argType; }
    } else if d.index < |t| {
      assert !Demanded(before, d.index);
    }
  }

  lemma {:induction false} AllDemandsTyped(xs: seq<Lexed>)
    ensures Typed(AllDemands(xs))
    decreases |xs|
  {
    if xs != [] { AllDemandsTyped(xs[..|xs| - 1]); }
  }

  /** m is the greatest of the lengths, or 0. */
  ghost predicate IsLongest(m: nat, fields: seq<Field>) {
    && (forall k :: 0 <= k < |fields| ==> Length(fields[k]) <= m)
    && (m == 0 || exists k :: 0 <= k < |fields| && Length(fields[k]) == m)
  }

  function Widths(ds: seq<Directive>): seq<Field> {
    seq(|ds|, k requires 0 <= k < |ds| => ds[k].width)
  }

  function Precisions(ds: seq<Directive>): seq<Field> {
    seq(|ds|, k requires 0 <= k < |ds| => ds[k].precision)
  }

  lemma LongestNext(m: nat, fields: seq<Field>, field: Field)
    requires IsLongest(m, fields)
    ensures IsLongest(if m < Length(field) then Length(field) else m, fields + [field])
  {
    var all := fields + [field];
    assert all[|fields|] == field;
    if 0 < m && m >= Length(field) {
      var k :| 0 <= k < |fields| && Length(fields[k]) == m;
      assert all[k] == fields[k];
    }
  }

  /** One directive is read and stored. */
  method Step(f: CString, config: Config, cp: nat, posn: nat, d: Directives, a: Arguments, ghost items: seq<Lexed>)
      returns (status: Status, x: Lexed)
    requires posn <= cp < |f| && f[cp] == '%' && posn <= ARG_NONE && d.Valid() && a.Valid()
    requires d.count <= cp
    requires At(f, config, items, cp, posn, a.Types()) && d.Contents() == DirectivesOf(items)
    modifies d, d.dir, a, a.arg
    ensures d.dir == old(d.dir) || fresh(d.dir)
    ensures a.arg == old(a.arg) || fresh(a.arg)
    ensures d.maxWidthLength == old(d.maxWidthLength) && d.maxPrecisionLength == old(d.maxPrecisionLength)
    ensures status == Ok ==>
              && d.Valid() && a.Valid() && x.posn <= ARG_NONE && x.d.start == cp < x.d.end
              && At(f, config, items + [x], x.d.end, x.posn, a.Types())
              && d.Contents() == old(d.Contents()) + [x.d] && x.posn <= x.d.end
    ensures status == EInval ==> Parse(f, config) == None
    ensures status == ENoMem && Parse(f, config).Some? ==>
              || (|Parse(f, config).value.arguments| > 0 && Outgrows(|Parse(f, config).value.arguments| - 1))
              || TooMany(|Parse(f, config).value.directives|)
    ensures status == ENoMem ==> RunsOut(f)
  {
    hide At, Read, LexDirective, Parse, Extended, Outgrows, TooMany, RunsOut;
    ghost var types := a.Types();
    status, x := ReadDirective(f, cp, posn, config, a);
    if status != Ok {
      AtRefusal(f, config, items, cp, posn, types, status, a.Types());
      return;
    }
    ReadOk(types, x, a.Types());
    AtDirective(f, config, items, cp, posn, types, x, a.Types());
    status := d.Append(x.d);
    if status != Ok {
      LongText(f, |items| + 1);
      if Parse(f, config).Some? {
        AtCount(f, config, items + [x], x.d.end, x.posn, a.Types());
        OutgrowsMore(|items| + 1, |Parse(f, config).value.directives|);
      }
    }
  }

  lemma ReadOk(before: seq<ArgType>, x: Lexed, after: seq<ArgType>)
    requires Read(Ok, before, Some(x), after)
    ensures Extended(before, Demands(x)) == Some(after)
  {}

  /**
    printf_parse.  It accepts exactly the strings that Parse gives a meaning, stores that
    meaning followed by a sentinel that starts at the end of the text, and can run out of
    memory only if the tables outgrow their first size.
   */
  method PrintfParse(f: CString, config: Config) returns (status: Status, d: Directives, a: Arguments)
    ensures status == Ok ==>
              && d.Valid() && a.Valid()
              && Parse(f, config) == Some(Parsed(d.Contents(), a.Types()))
              && d.dir[d.count].start == |f|
              && IsLongest(d.maxWidthLength, Widths(d.Contents()))
              && IsLongest(d.maxPrecisionLength, Precisions(d.Contents()))
    ensures status == EInval ==> Parse(f, config) == None
    ensures status == ENoMem && Parse(f, config).Some? ==>
              || (|Parse(f, config).value.arguments| > 0 && Outgrows(|Parse(f, config).value.arguments| - 1))
              || TooMany(|Parse(f, config).value.directives|)
    ensures status == ENoMem ==> RunsOut(f)
  {
    hide At, Parse, IsLongest, LexDirective, Widths, Precisions, DirectivesOf, Outgrows, TooMany, RunsOut;
    d := new Directives();
    a := new Arguments();
    var cp: nat, posn: nat := 0, 0;
    var maxWidthLength: nat, maxPrecisionLength: nat := 0, 0;
    ghost var items: seq<Lexed> := [];
    AtStart(f, config);
    LongestEmpty();
    assert DirectivesOf(items) == [];
    while cp < |f|
      invariant cp <= |f| && posn <= ARG_NONE && d.Valid() && a.Valid() && posn <= cp && d.count <= cp
      invariant fresh(d) && fresh(a) && fresh(d.dir) && fresh(a.arg)
      invariant At(f, config, items, cp, posn, a.Types()) && d.Contents() == DirectivesOf(items)
      invariant IsLongest(maxWidthLength, Widths(d.Contents()))
      invariant IsLongest(maxPrecisionLength, Precisions(d.Contents()))
      decreases |f| - cp
    {
      if f[cp] == '%' {
        var x;
        ghost var before := d.Contents();
        status, x := Step(f, config, cp, posn, d, a, items);
        if status != Ok {
          return;
        }
        FieldsNext(before, x.d);
        LongestNext(maxWidthLength, Widths(before), x.d.width);
        LongestNext(maxPrecisionLength, Precisions(before), x.d.precision);
        if maxWidthLength < Length(x.d.width) {
          maxWidthLength := Length(x.d.width);
        }
        if maxPrecisionLength < Length(x.d.precision) {
          maxPrecisionLength := Length(x.d.precision);
        }
        DirectivesNext(items, x);
        items, cp, posn := items + [x], x.d.end, x.posn;
        AtBounds(f, config, items, cp, posn, a.Types());
      } else {
        AtOther(f, config, items, cp, posn, a.Types());
        if config.onlyAscii && f[cp] as int >= 128 {
          return EInval, d, a;
        }
        cp := cp + 1;
      }
    }
    AtEnd(f, config, items, posn, a.Types());
    ghost var contents := d.Contents();
    d.dir[d.count] := d.dir[d.count].(start := cp);
    assert d.Contents() == contents;
    d.maxWidthLength, d.maxPrecisionLength := maxWidthLength, maxPrecisionLength;
    status := Ok;
  }

  lemma FieldsNext(ds: seq<Directive>, d: Directive)
    ensures Widths(ds + [d]) == Widths(ds) + [d.width] && Precisions(ds + [d]) == Precisions(ds) + [d.precision]
  {}

  lemma DirectivesNext(xs: seq<Lexed>, x: Lexed)
    ensures DirectivesOf(xs + [x]) == DirectivesOf(xs) + [x.d]
  {}

  lemma LongestEmpty()
    ensures IsLongest(0, Widths([])) && IsLongest(0, Precisions([]))
  {}

  lemma AtBounds(f: CString, config: Config, items: seq<Lexed>, cp: nat, posn: nat, types: seq<ArgType>)
    requires At(f, config, items, cp, posn, types)
    ensures cp <= |f|
  {}

  // -------------------------------------------------- the shape of the directives

  /** Directives in the order of the text and without overlap; no '%' from i on is outside of them. */
  ghost predicate Covers(f: string, i: nat, xs: seq<Lexed>) {
    && (forall k :: 0 <= k < |xs| ==> i <= xs[k].d.start < xs[k].d.end <= |f| && f[xs[k].d.start] == '%')
    && (forall k, l :: 0 <= k < l < |xs| ==> xs[k].d.end <= xs[l].d.start)
    && (forall p :: i <= p < |f| && f[p] == '%' ==> Inside(p, xs))
  }

  ghost predicate Inside(p: nat, xs: seq<Lexed>) {
    exists k :: 0 <= k < |xs| && xs[k].d.start <= p < xs[k].d.end
  }

  lemma InsideCons(p: nat, x: Lexed, rest: seq<Lexed>)
    requires Inside(p, rest)
    ensures Inside(p, [x] + rest)
  {
    var k :| 0 <= k < |rest| && rest[k].d.start <= p < rest[k].d.end;
    assert ([x] + rest)[k + 1] == rest[k];
  }

  lemma CoversCons(f: string, i: nat, x: Lexed, rest: seq<Lexed>)
    requires i <= |f| && i == x.d.start < x.d.end <= |f| && f[i] == '%' && Covers(f, x.d.end, rest)
    ensures Covers(f, i, [x] + rest)
  {
    hide Inside;
    var xs := [x] + rest;
    forall k | 0 <= k < |xs|
      ensures i <= xs[k].d.start < xs[k].d.end <= |f| && f[xs[k].d.start] == '%'
      ensures k > 0 ==> xs[k] == rest[k - 1]
    {}
    forall p | i <= p < |f| && f[p] == '%' ensures Inside(p, xs) {
      if p >= x.d.end { InsideCons(p, x, rest); } else { InsideFirst(p, x, rest); }
    }
  }

  lemma InsideFirst(p: nat, x: Lexed, rest: seq<Lexed>)
    requires x.d.start <= p < x.d.end
    ensures Inside(p, [x] + rest)
  {
    assert ([x] + rest)[0] == x;
  }

  lemma {:induction false} DirectivesCover(f: CString, i: nat, posn: nat, config: Config)
    requires i <= |f| && Lex(f, i, posn, config).Some?
    ensures Covers(f, i, Lex(f, i, posn, config).value)
    decreases |f| - i
  {
    hide LexDirective;
    if i < |f| {
      if f[i] == '%' {
        hide Covers;
        var x := LexDirective(f, i, posn, config).value;
        DirectivesCover(f, x.d.end, x.posn, config);
        CoversCons(f, i, x, Lex(f, x.d.end, x.posn, config).value);
      } else {
        DirectivesCover(f, i + 1, posn, config);
      }
    }
  }

  // ------------------------------------------------ the numbering of arguments

  function Range(a: nat, b: nat): (r: seq<nat>)
    ensures |r| == if a <= b then b - a else 0
    ensures forall k :: 0 <= k < |r| ==> r[k] == a + k
    decreases b - a
  {
    if a >= b then [] else [a] + Range(a + 1, b)
  }

  lemma {:induction false} RangeJoin(a: nat, b: nat, c: nat)
    requires a <= b <= c
    ensures Range(a, b) + Range(b, c) == Range(a, c)
    decreases b - a
  {
    if a < b { RangeJoin(a + 1, b, c); }
  }

  /** An index that the text at i gives as "n$", or else the next number in turn. */
  ghost predicate NumberedBy(f: string, i: nat, index: nat) {
    i <= |f| && (Positional(f, i).Absent? || (Positional(f, i).Here? && Positional(f, i).index == index))
  }

  ghost predicate Named(f: string, i: nat) {
    i <= |f| && Positional(f, i).Here?
  }

  ghost function UnnamedAt(f: string, i: nat, index: nat): seq<nat> {
    if index != ARG_NONE && !Named(f, i) then [index] else []
  }

  /** Where the text of an argument index is, if there is one. */
  function After(field: Field, skip: nat): nat {
    if field.Field? then field.start + skip else 0
  }

  /** The indexes of a directive that its text does not name, from left to right. */
  ghost function Unnamed(f: string, x: Lexed): seq<nat> {
    UnnamedAt(f, After(x.d.width, 1), x.d.widthIndex)
    + UnnamedAt(f, After(x.d.precision, 2), x.d.precisionIndex)
    + UnnamedAt(f, x.d.start + 1, if x.argType != NoArg then x.d.argIndex else ARG_NONE)
  }

  ghost function AllUnnamed(f: string, xs: seq<Lexed>): seq<nat> {
    if xs == [] then [] else Unnamed(f, xs[0]) + AllUnnamed(f, xs[1..])
  }

  /** Every index that the text names is the one named. */
  ghost predicate NamesHold(f: string, x: Lexed) {
    && (x.d.widthIndex != ARG_NONE ==> x.d.width.Field? && NumberedBy(f, x.d.width.start + 1, x.d.widthIndex))
    && (x.d.precisionIndex != ARG_NONE ==>
          x.d.precision.Field? && NumberedBy(f, x.d.precision.start + 2, x.d.precisionIndex))
    && (x.argType != NoArg ==> x.d.argIndex != ARG_NONE && NumberedBy(f, x.d.start + 1, x.d.argIndex))
  }

  /** A width or precision takes an argument exactly if it is written with '*'. */
  ghost predicate StarsTake(f: string, x: Lexed) {
    && IsStarred(f, x.d.width, x.d.widthIndex, 0)
    && IsStarred(f, x.d.precision, x.d.precisionIndex, 1)
  }

  /** The '*' is `skip` characters into the text of the field, which it ends. */
  ghost predicate IsStarred(f: string, field: Field, index: nat, skip: nat) {
    && (index != ARG_NONE ==> field.Field?)
    && (field.Field? ==>
          && field.start < field.end <= |f|
          && (index != ARG_NONE <==> f[field.end - 1] == '*')
          && (index != ARG_NONE ==> field.end == field.start + skip + 1))
  }

  lemma WidthStars(f: CString, i: nat, posn: nat)
    requires i <= |f| && Width(f, i, posn).Got?
    ensures IsStarred(f, Width(f, i, posn).field, Width(f, i, posn).index, 0)
  {
    hide Positional;
  }

  lemma PrecisionStars(f: CString, i: nat, posn: nat)
    requires i <= |f| && Precision(f, i, posn).Got?
    ensures IsStarred(f, Precision(f, i, posn).field, Precision(f, i, posn).index, 1)
  {
    hide Positional;
  }

  lemma DirectiveStars(f: CString, start: nat, posn: nat, config: Config)
    requires start < |f| && LexDirective(f, start, posn, config).Some?
    ensures StarsTake(f, LexDirective(f, start, posn, config).value)
  {
    hide Positional, Width, Precision, Conversion, Size, FlagsEnd, IsStarred;
    var p := Positional(f, start + 1);
    var j := FlagsEnd(f, if p.Here? then p.next else start + 1, config);
    WidthStars(f, j, posn);
    var w := Width(f, j, posn);
    PrecisionStars(f, w.next, w.posn);
  }

  /** A width or a precision takes an argument exactly if it is written with a star. */
  lemma {:induction false} StarsTakeArguments(f: CString, i: nat, posn: nat, config: Config)
    requires i <= |f| && Lex(f, i, posn, config).Some?
    ensures forall x :: x in Lex(f, i, posn, config).value ==> StarsTake(f, x)
    decreases |f| - i
  {
    hide LexDirective, StarsTake;
    if i < |f| {
      if f[i] == '%' {
        var x := LexDirective(f, i, posn, config).value;
        DirectiveStars(f, i, posn, config);
        StarsTakeArguments(f, x.d.end, x.posn, config);
      } else {
        StarsTakeArguments(f, i + 1, posn, config);
      }
    }
  }

  lemma RangeShort(a: nat)
    ensures Range(a, a) == [] && Range(a, a + 1) == [a]
  {}

  lemma WidthNumbering(f: CString, i: nat, posn: nat)
    requires i <= |f| && Width(f, i, posn).Got?
    ensures var w := Width(f, i, posn);
            && (w.index != ARG_NONE ==> w.field.Field? && NumberedBy(f, w.field.start + 1, w.index))
            && UnnamedAt(f, After(w.field, 1), w.index) == Range(posn, w.posn) && posn <= w.posn
  {
    hide Positional, Range;
    RangeShort(posn);
  }

  lemma PrecisionNumbering(f: CString, i: nat, posn: nat)
    requires i <= |f| && Precision(f, i, posn).Got?
    ensures var q := Precision(f, i, posn);
            && (q.index != ARG_NONE ==> q.field.Field? && NumberedBy(f, q.field.start + 2, q.index))
            && UnnamedAt(f, After(q.field, 2), q.index) == Range(posn, q.posn) && posn <= q.posn
  {
    hide Positional, Range;
    RangeShort(posn);
  }

  lemma ConversionNumbering(f: CString, m: Modifier, config: Config, posn: nat, i: nat, d: Directive)
    requires m.next <= |f| && i <= |f| && !Positional(f, i).Wrong?
    requires LexConversion(f, m, config, posn, NamedIndex(f, i), d).Some?
    ensures var x := LexConversion(f, m, config, posn, NamedIndex(f, i), d).value;
            && (x.argType != NoArg ==> x.d.argIndex != ARG_NONE && NumberedBy(f, i, x.d.argIndex))
            && UnnamedAt(f, i, if x.argType != NoArg then x.d.argIndex else ARG_NONE) == Range(posn, x.posn)
            && posn <= x.posn
  {
    hide Positional, Range, Conversion;
    RangeShort(posn);
  }

  function NamedIndex(f: string, i: nat): nat
    requires i <= |f|
  {
    var p := Positional(f, i);
    if p.Here? then p.index else ARG_NONE
  }

  lemma DirectiveNumbering(f: CString, start: nat, posn: nat, config: Config)
    requires start < |f| && LexDirective(f, start, posn, config).Some?
    ensures var x := LexDirective(f, start, posn, config).value;
            NamesHold(f, x) && Unnamed(f, x) == Range(posn, x.posn)
  {
    hide Positional, Width, Precision, LexConversion, Size, FlagsEnd, UnnamedAt, Range, NumberedBy;
    var p := Positional(f, start + 1);
    var i := if p.Here? then p.next else start + 1;
    var j := FlagsEnd(f, i, config);
    WidthNumbering(f, j, posn);
    var w := Width(f, j, posn);
    PrecisionNumbering(f, w.next, w.posn);
    var q := Precision(f, w.next, w.posn);
    var x := LexDirective(f, start, posn, config).value;
    var d := Begun(start, CharsOf(f[i..j])).(width := w.field, widthIndex := w.index,
                                             precision := q.field, precisionIndex := q.index);
    ConversionNumbering(f, Size(f, q.next, config), config, q.posn, start + 1, d);
    RangeJoin(posn, w.posn, q.posn);
    RangeJoin(posn, q.posn, x.posn);
  }

  /** The indexes that the text does not name are 0, 1, 2, ... from left to right; the others are as named. */
  lemma {:induction false} ArgumentNumbering(f: CString, i: nat, posn: nat, config: Config)
    requires i <= |f| && Lex(f, i, posn, config).Some?
    ensures var xs := Lex(f, i, posn, config).value;
            && AllUnnamed(f, xs) == Range(posn, posn + |AllUnnamed(f, xs)|)
            && forall x :: x in xs ==> NamesHold(f, x)
    decreases |f| - i
  {
    hide LexDirective, Unnamed, NamesHold;
    if i < |f| {
      if f[i] == '%' {
        var x := LexDirective(f, i, posn, config).value;
        var rest := Lex(f, x.d.end, x.posn, config).value;
        DirectiveNumbering(f, i, posn, config);
        ArgumentNumbering(f, x.d.end, x.posn, config);
        assert ([x] + rest)[1..] == rest;
        RangeJoin(posn, x.posn, x.posn + |AllUnnamed(f, rest)|);
      } else {
        ArgumentNumbering(f, i + 1, posn, config);
      }
    }
  }

  // ------------------------------------------------------ fetching the arguments

  /** A machine value in the argument list; address 0 is the null pointer. */
  datatype Datum = Numeric(n: int) | Floating(x: real) | Address(p: nat)

  /** Where the replacements of null strings are. */
  const NULL_STRING: nat := 1

  /** The widths of the integer types that va_arg may have to narrow to. */
  datatype Platform = Platform(intWidth: nat, shortWidth: nat, fast8: nat, fast16: nat, fast32: nat,
                               wintWidth: nat, wintSigned: bool)

  function KindWidth(w: Platform, kind: Kind): nat {
    match kind
    case CharKind => 8
    case ShortKind => w.shortWidth
    case Exact(bits) => if bits == 64 then w.intWidth else bits
    case Fast(bits) => if bits == 8 then w.fast8 else if bits == 16 then w.fast16
                       else if bits == 32 then w.fast32 else w.intWidth
    case _ => w.intWidth
  }

  /** The width of an integer type or of wint_t, or that of int if it is no narrower. */
  function WidthIn(w: Platform, t: ArgType): (n: nat)
    ensures n <= w.intWidth
  {
    var n := if t.Integer? then KindWidth(w, t.kind) else if t == WideChar then w.wintWidth else w.intWidth;
    if n < w.intWidth then n else w.intWidth
  }

  predicate SignedIn(w: Platform, t: ArgType) {
    (t.Integer? && t.signed) || (t == WideChar && w.wintSigned)
  }

  /**
    What an entry of the table holds after va_arg has delivered v.  A type narrower than int
    arrives as an int and is converted; any other arrives as it is.
   */
  function Stored(w: Platform, t: ArgType, v: Datum): Datum {
    match v
    case Numeric(n) =>
      if WidthIn(w, t) < w.intWidth then Numeric(Converted(Pow2(WidthIn(w, t)), SignedIn(w, t), n)) else v
    case Floating(_) => v
    case Address(p) =>
      if p == 0 && t in {String, WideString, U8String, U16String, U32String} then Address(NULL_STRING) else v
  }

  /** printf_fetchargs: the entries in order take the arguments in order, up to the first without a type. */
  method FetchArgs(w: Platform, a: Arguments, list: nat -> Datum) returns (r: int, values: seq<Datum>)
    requires a.Valid()
    ensures r == 0 || r == -1
    ensures r == 0 <==> NoArg !in a.Types()
    ensures |values| <= a.count && (r == 0 ==> |values| == a.count)
    ensures r == -1 ==> |values| < a.count && a.Types()[|values|] == NoArg
    ensures forall k: nat :: k < |values| ==> a.Types()[k] != NoArg && values[k] == Stored(w, a.Types()[k], list(k))
  {
    values := [];
    var i := 0;
    while i < a.count
      invariant i == |values| <= a.count
      invariant forall k: nat :: k < i ==> a.arg[k] != NoArg && values[k] == Stored(w, a.arg[k], list(k))
    {
      if a.arg[i] == NoArg {
        assert a.Types()[i] == NoArg;
        return -1, values;
      }
      values := values + [Stored(w, a.arg[i], list(i))];
      i := i + 1;
    }
    r := 0;
  }

  /** Every index that a directive uses. */
  ghost predicate Uses(x: Lexed, k: nat) {
    || (x.d.widthIndex == k && k != ARG_NONE)
    || (x.d.precisionIndex == k && k != ARG_NONE)
    || (x.argType != NoArg && x.d.argIndex == k)
  }

  lemma DemandsAreUses(x: Lexed)
    ensures forall d :: d in Demands(x) <==>
                          || (d == Demand(x.d.widthIndex, INT) && d.index != ARG_NONE)
                          || (d == Demand(x.d.precisionIndex, INT) && d.index != ARG_NONE)
                          || (d == Demand(x.d.argIndex, x.argType) && x.argType != NoArg)
  {}

  lemma {:induction false} AllDemandsMembers(xs: seq<Lexed>)
    ensures forall d :: d in AllDemands(xs) <==> exists x :: x in xs && d in Demands(x)
    decreases |xs|
  {
    hide Demands;
    if xs != [] {
      var before, last := xs[..|xs| - 1], xs[|xs| - 1];
      AllDemandsMembers(before);
      assert xs == before + [last];
    }
  }

  /**
    The table of a valid text: each width and precision taken from the arguments is an int,
    each argument has the type its directive demands, and the entries without a type, on
    which printf_fetchargs fails, are those that no directive uses.
   */
  lemma ParsedTypes(f: CString, config: Config)
    requires Parse(f, config).Some?
    ensures var xs, t := Lex(f, 0, 0, config).value, Parse(f, config).value.arguments;
            && (forall x :: x in xs && x.d.widthIndex != ARG_NONE ==>
                              x.d.widthIndex < |t| && t[x.d.widthIndex] == Integer(IntKind, true))
            && (forall x :: x in xs && x.d.precisionIndex != ARG_NONE ==>
                              x.d.precisionIndex < |t| && t[x.d.precisionIndex] == Integer(IntKind, true))
            && (forall x :: x in xs && x.argType != NoArg ==>
                              x.d.argIndex < |t| && t[x.d.argIndex] == x.argType)
            && (forall k: nat :: k < |t| ==> (t[k] != NoArg <==> exists x :: x in xs && Uses(x, k)))
            && (t != [] ==> exists x :: x in xs && Uses(x, |t| - 1))
  {
    hide Demands, LexDirective;
    var xs, t := Lex(f, 0, 0, config).value, Parse(f, config).value.arguments;
    var ds := AllDemands(xs);
    AllDemandsTyped(xs);
    TableAnswers(ds);
    AllDemandsMembers(xs);
    forall x | x in xs ensures forall d :: d in Demands(x) ==> d.index < |t| && t[d.index] == d.argType {
      forall d | d in Demands(x) ensures d.index < |t| && t[d.index] == d.argType {
        assert d in ds;
        var i :| 0 <= i < |ds| && ds[i] == d;
      }
    }
    forall x | x in xs
      ensures x.d.widthIndex != ARG_NONE ==> x.d.widthIndex < |t| && t[x.d.widthIndex] == INT
      ensures x.d.precisionIndex != ARG_NONE ==> x.d.precisionIndex < |t| && t[x.d.precisionIndex] == INT
      ensures x.argType != NoArg ==> x.d.argIndex < |t| && t[x.d.argIndex] == x.argType
    {
      DemandsAreUses(x);
      assert x.d.widthIndex != ARG_NONE ==> Demand(x.d.widthIndex, INT) in Demands(x);
      assert x.d.precisionIndex != ARG_NONE ==> Demand(x.d.precisionIndex, INT) in Demands(x);
      assert x.argType != NoArg ==> Demand(x.d.argIndex, x.argType) in Demands(x);
    }
    forall k: nat ensures Demanded(ds, k) <==> exists x :: x in xs && Uses(x, k) {
      DemandedIsUsed(xs, k);
    }
  }

  lemma DemandedIsUsed(xs: seq<Lexed>, k: nat)
    ensures Demanded(AllDemands(xs), k) <==> exists x :: x in xs && Uses(x, k)
  {
    hide Demands;
    var ds := AllDemands(xs);
    AllDemandsMembers(xs);
    if Demanded(ds, k) {
      var i :| 0 <= i < |ds| && ds[i].index == k;
      assert ds[i] in ds;
      var x :| x in xs && ds[i] in Demands(x);
      DemandsAreUses(x);
      assert Uses(x, k);
    }
    if x :| x in xs && Uses(x, k) {
      DemandsAreUses(x);
      var d := if x.argType != NoArg && x.d.argIndex == k then Demand(k, x.argType) else Demand(k, INT);
      assert d in Demands(x) && d in ds;
      var i :| 0 <= i < |ds| && ds[i] == d;
    }
  }

  /** A text is refused exactly if a directive is malformed or an argument is used with two types. */
  lemma RefusedExactly(f: CString, config: Config)
    ensures Parse(f, config) == None <==>
              Lex(f, 0, 0, config) == None || !Agreeing(AllDemands(Lex(f, 0, 0, config).value))
  {
    hide Lex;
    if Lex(f, 0, 0, config).Some? {
      AllDemandsTyped(Lex(f, 0, 0, config).value);
      TableAnswers(AllDemands(Lex(f, 0, 0, config).value));
    }
  }

  /** Where the position, the flags, the width and the precision of a directive end. */
  function SizeStart(f: CString, start: nat, config: Config): (i: nat)
    requires start < |f|
    ensures start < i <= |f|
  {
    var p := Positional(f, start + 1);
    var w := Width(f, FlagsEnd(f, if p.Here? then p.next else start + 1, config), 0);
    if w.Bad? then start + 1
    else
      var q := Precision(f, w.next, 0);
      if q.Bad? then start + 1 else q.next
  }

  /** The size specifiers there and the conversion right after them decide the type. */
  ghost predicate TypedByText(f: CString, config: Config, x: Lexed) {
    && x.d.start < x.d.end <= |f|
    && var m := Size(f, SizeStart(f, x.d.start, config), config);
       m.next == x.d.end - 1 && Conversion(f[x.d.end - 1], m, config) == Some((x.argType, x.d.conversion))
  }

  /** How a width or precision goes on does not depend on the number of arguments taken so far. */
  lemma WidthNext(f: CString, i: nat, posn: nat)
    requires i <= |f| && Width(f, i, posn).Got?
    ensures Width(f, i, 0).Got? && Width(f, i, 0).next == Width(f, i, posn).next
  {}

  lemma PrecisionNext(f: CString, i: nat, posn: nat)
    requires i <= |f| && Precision(f, i, posn).Got?
    ensures Precision(f, i, 0).Got? && Precision(f, i, 0).next == Precision(f, i, posn).next
  {}

  lemma DirectiveIsTyped(f: CString, start: nat, posn: nat, config: Config)
    requires start < |f| && LexDirective(f, start, posn, config).Some?
    ensures TypedByText(f, config, LexDirective(f, start, posn, config).value)
  {
    hide Positional, Width, Precision, Conversion, FlagsEnd, Size;
    var p := Positional(f, start + 1);
    var j := FlagsEnd(f, if p.Here? then p.next else start + 1, config);
    var w := Width(f, j, posn);
    WidthNext(f, j, posn);
    PrecisionNext(f, w.next, w.posn);
  }

  lemma {:induction false} ArgumentsAreTyped(f: CString, i: nat, posn: nat, config: Config)
    requires i <= |f| && Lex(f, i, posn, config).Some?
    ensures forall x :: x in Lex(f, i, posn, config).value ==> TypedByText(f, config, x)
    decreases |f| - i
  {
    hide LexDirective, TypedByText;
    if i < |f| {
      if f[i] == '%' {
        var x := LexDirective(f, i, posn, config).value;
        DirectiveIsTyped(f, i, posn, config);
        ArgumentsAreTyped(f, x.d.end, x.posn, config);
      } else {
        ArgumentsAreTyped(f, i + 1, posn, config);
      }
    }
  }

  // ------------------------------------------------- texts that name no argument

  function Indexes(ds: seq<Demand>): (r: seq<nat>)
    ensures |r| == |ds| && forall k :: 0 <= k < |r| ==> r[k] == ds[k].index
  {
    seq(|ds|, k requires 0 <= k < |ds| => ds[k].index)
  }

  lemma NothingNamed(f: string, i: nat)
    requires '$' !in f
    ensures !Named(f, i)
  {
    if i <= |f| { assert CharAt(f, DigitsEnd(f, i)) != '$'; }
  }

  lemma IndexesJoin(a: seq<Demand>, b: seq<Demand>)
    ensures Indexes(a + b) == Indexes(a) + Indexes(b)
  {}

  lemma {:induction false} DemandsInTurn(f: string, xs: seq<Lexed>)
    requires '$' !in f && forall x :: x in xs ==> NamesHold(f, x)
    ensures Indexes(AllDemands(xs)) == AllUnnamed(f, xs)
  {
    hide Demands, AllDemands, Unnamed, NamesHold, Indexes;
    if xs == [] {
      assert AllDemands(xs) == [] by { NoDemands(); }
    } else {
      var x, rest := xs[0], xs[1..];
      DemandsInTurn(f, rest);
      assert xs == [x] + rest;
      AllDemandsJoin([x], rest);
      AllDemandsOne(x);
      OneInTurn(f, x);
      IndexesJoin(Demands(x), AllDemands(rest));
    }
  }

  lemma NoDemands()
    ensures AllDemands([]) == []
  {}

  lemma OneInTurn(f: string, x: Lexed)
    requires '$' !in f && NamesHold(f, x)
    ensures Indexes(Demands(x)) == Unnamed(f, x)
  {
    hide Named, NumberedBy;
    NothingNamed(f, After(x.d.width, 1));
    NothingNamed(f, After(x.d.precision, 2));
    NothingNamed(f, x.d.start + 1);
    var a, b, c := FieldDemands(x.d.widthIndex), FieldDemands(x.d.precisionIndex), ArgDemands(x);
    IndexesJoin(a + b, c);
    IndexesJoin(a, b);
  }

  /**
    A text without '$' is valid as soon as its directives are well formed: its arguments are
    used once each, none is left out, and so printf_fetchargs succeeds on its table.
   */
  lemma UnnamedArgumentsFetch(f: CString, config: Config)
    requires '$' !in f && Lex(f, 0, 0, config).Some?
    ensures Parse(f, config).Some? && NoArg !in Parse(f, config).value.arguments
    ensures |Parse(f, config).value.arguments| == |AllUnnamed(f, Lex(f, 0, 0, config).value)|
  {
    hide Lex, AllDemands, AllUnnamed, NamesHold, Extended;
    var xs := Lex(f, 0, 0, config).value;
    var ds := AllDemands(xs);
    ArgumentNumbering(f, 0, 0, config);
    DemandsInTurn(f, xs);
    assert forall k :: 0 <= k < |ds| ==> ds[k].index == Indexes(ds)[k] == k;
    AllDemandsTyped(xs);
    TableAnswers(ds);
    var t := Table(ds).value;
    if t != [] {
      assert Demanded(ds, |t| - 1);
    }
    if ds != [] {
      assert ds[|ds| - 1].index < |t|;
    }
    forall k | 0 <= k < |t| ensures t[k] != NoArg {
      assert ds[k].index == k;
    }
  }

  // --------------------------------------------- what the size specifiers mean

  /** The specifier of a width, or "" if it is not one of the four. */
  function WidthText(n: nat): (s: CString)
    ensures |s| <= 2
  {
    if n == 8 then "8" else if n == 16 then "16" else if n == 32 then "32" else if n == 64 then "64" else ""
  }

  /** What each size specifier stands for, on a given platform; None if there is no such specifier. */
  function Meaning(text: string, config: Config): Option<(Kind, bool)> {
    if text == "" then Some((IntKind, false))
    else
      match text[0]
      case 'h' =>
        if text == "h" then Some((ShortKind, false))
        else if text == "hh" then Some((CharKind, false))
        else None
      case 'l' =>
        if text == "l" then Some((LongKind, false))
        else if text == "ll" then Some((LongLongKind, true))
        else None
      case 'L' => if text == "L" then Some((LongLongKind, true)) else None
      case 'j' => if text == "j" then Some(RankKind(config.intmax)) else None
      case 'z' => if text == "z" then Some(RankKind(config.size)) else None
      case 'Z' => if text == "Z" then Some(RankKind(config.size)) else None
      case 't' => if text == "t" then Some(RankKind(config.ptrdiff)) else None
      case 'w' =>
        if text[1..] in {"8", "16", "32", "64"} then Some((Exact(WidthOf(text[1..])), false))
        else if text[1..] in {"f8", "f16", "f32", "f64"} then Some((Fast(WidthOf(text[2..])), false))
        else None
      case 'q' => if text == "q" && config.apple then Some(Int64Kind(config)) else None
      case 'I' => if text == "I64" && config.windows then Some(Int64Kind(config)) else None
      case _ => None
  }

  function WidthOf(text: string): nat {
    if text == "8" then 8 else if text == "16" then 16 else if text == "32" then 32 else 64
  }

  function RankKind(rank: Rank): (Kind, bool) {
    match rank
    case NeedsLongLong => (LongLongKind, true)
    case FitsLong => (LongKind, false)
    case FitsInt => (IntKind, false)
  }

  function Int64Kind(config: Config): (Kind, bool) {
    if config.int64NeedsLongLong then (LongLongKind, true) else (LongKind, false)
  }

  predicate ReadsAt(f: string, i: nat, text: string) {
    i + |text| <= |f| && f[i..i + |text|] == text
  }

  /** A specifier is a letter and perhaps more, told apart by its first letter and then by the next. */
  lemma SpecifierShape(config: Config, t: string)
    requires Meaning(t, config).Some?
    ensures t == "" || t[0] in "hlLjzZtwqI"
    ensures t != "" && t[0] == 'h' ==> t == "h" || t == "hh"
    ensures t != "" && t[0] == 'l' ==> t == "l" || t == "ll"
    ensures t != "" && t[0] in "LjzZtq" ==> t == [t[0]]
    ensures t != "" && t[0] == 'q' ==> config.apple
    ensures t != "" && t[0] == 'I' ==> t == "I64" && config.windows
    ensures t != "" && t[0] == 'w' ==>
              exists n :: n in {8, 16, 32, 64} && (t == "w" + WidthText(n) || t == "wf" + WidthText(n))
  {
    if t != "" && t[0] == 'w' {
      var n := if t[1..] in {"8", "16", "32", "64"} then WidthOf(t[1..]) else WidthOf(t[2..]);
      assert t == ['w'] + t[1..];
      assert t[1..] in {"f8", "f16", "f32", "f64"} ==> t[1..] == "f" + t[2..];
      assert n in {8, 16, 32, 64} && (t[1..] == WidthText(n) || t[1..] == "f" + WidthText(n));
      assert t == "w" + WidthText(n) || t == "wf" + WidthText(n);
    }
  }

  /** Size reads the longest specifier at i, and takes it for what it stands for. */
  ghost predicate ReadsLongest(f: CString, i: nat, config: Config)
    requires i <= |f|
  {
    var m := Size(f, i, config);
    var text := f[i..m.next];
    && Meaning(text, config) == Some((m.kind, m.longDouble))
    && forall t :: Meaning(t, config).Some? && ReadsAt(f, i, t) ==> |t| <= |text|
  }

  /** The specifier read is `text`, with the meaning of `text`. */
  ghost predicate ReadsAs(f: CString, i: nat, config: Config, text: string)
    requires i <= |f|
  {
    var m := Size(f, i, config);
    f[i..m.next] == text && Meaning(text, config) == Some((m.kind, m.longDouble))
  }

  /** It is enough to look at the specifiers with the right first letter. */
  lemma LongestByLetter(f: CString, i: nat, config: Config, text: string)
    requires i <= |f| && ReadsAs(f, i, config, text)
    requires forall t :: Meaning(t, config).Some? && t != "" && ReadsAt(f, i, t) && t[0] == CharAt(f, i) ==>
                           |t| <= |text|
    ensures ReadsLongest(f, i, config)
  {
    hide Size, Meaning;
    forall t | Meaning(t, config).Some? && ReadsAt(f, i, t) ensures |t| <= |text| {
      if t != "" { assert t[0] == f[i..i + |t|][0]; }
    }
  }

  /** The second letter of a longer specifier is in the text. */
  lemma NextLetter(f: string, i: nat, t: string, k: nat)
    requires ReadsAt(f, i, t) && k < |t|
    ensures i + k < |f| && f[i + k] == t[k]
  {
    assert f[i..i + |t|][k] == f[i + k];
  }

  lemma SizeOfDoubled(f: CString, i: nat, config: Config)
    requires i < |f| && f[i] in "hl"
    ensures ReadsAs(f, i, config, if CharAt(f, i + 1) == f[i] then [f[i], f[i]] else [f[i]])
  {
    hide Bits;
    assert f[i..i + 1] == [f[i]];
    if CharAt(f, i + 1) == f[i] { assert f[i..i + 2] == [f[i], f[i]]; }
  }

  lemma SizeOfLetter(f: CString, i: nat, config: Config)
    requires i < |f| && (f[i] in "LjzZt" || (f[i] == 'q' && config.apple))
    ensures ReadsAs(f, i, config, [f[i]])
  {
    hide Bits;
    assert f[i..i + 1] == [f[i]];
  }

  lemma NoSpecifier(config: Config)
    ensures Meaning("", config) == Some((IntKind, false))
  {}

  lemma WidthSpecifier(n: nat, fast: bool, config: Config)
    requires n in {8, 16, 32, 64}
    ensures var t := (if fast then "wf" else "w") + WidthText(n);
            Meaning(t, config) == Some((if fast then Fast(n) else Exact(n), false))
  {
    var t := (if fast then "wf" else "w") + WidthText(n);
    assert fast ==> t[2..] == WidthText(n);
    if n == 8 { assert t[1..] == if fast then "f8" else "8"; }
    else if n == 16 { assert t[1..] == if fast then "f16" else "16"; }
    else if n == 32 { assert t[1..] == if fast then "f32" else "32"; }
    else { assert t[1..] == if fast then "f64" else "64"; }
  }

  lemma SizeOfWidth(f: CString, i: nat, config: Config)
    requires i < |f| && f[i] == 'w'
    ensures var fast := CharAt(f, i + 1) == 'f';
            var n := Bits(f, if fast then i + 2 else i + 1);
            ReadsAs(f, i, config, if n == 0 then "" else (if fast then "wf" else "w") + WidthText(n))
  {
    hide Bits, Meaning;
    assert Meaning("", config) == Some((IntKind, false)) by { NoSpecifier(config); }
    var fast := CharAt(f, i + 1) == 'f';
    var j := if fast then i + 2 else i + 1;
    BitsSpelling(f, j);
    var m := Size(f, i, config);
    if Bits(f, j) != 0 {
      WidthSpecifier(Bits(f, j), fast, config);
      assert f[i..m.next] == f[i..j] + f[j..m.next];
      assert f[i..j] == if fast then "wf" else "w";
    } else {
      assert f[i..m.next] == "";
    }
  }

  lemma BitsSpelling(f: string, i: nat)
    requires i <= |f|
    ensures var n := Bits(f, i); n != 0 ==> ReadsAt(f, i, WidthText(n))
    ensures forall k :: k in {8, 16, 32, 64} && ReadsAt(f, i, WidthText(k)) ==> Bits(f, i) == k
  {
    if i < |f| { assert f[i..i + 1] == [f[i]]; }
    if i + 1 < |f| { assert f[i..i + 2] == [f[i], f[i + 1]]; }
  }

  lemma SizeOfI64(f: CString, i: nat, config: Config)
    requires i < |f| && f[i] == 'I' && config.windows
    ensures ReadsAs(f, i, config, if ReadsAt(f, i, "I64") then "I64" else "")
  {
    hide Bits;
    if i + 3 <= |f| { assert f[i..i + 3] == [f[i], f[i + 1], f[i + 2]]; }
    assert f[i..i] == "";
  }

  lemma SizeOfNone(f: CString, i: nat, config: Config)
    requires i <= |f| && CharAt(f, i) !in "hlLjzZtw"
    requires (CharAt(f, i) == 'q' ==> !config.apple) && (CharAt(f, i) == 'I' ==> !config.windows)
    ensures ReadsAs(f, i, config, "")
  {
    hide Bits;
    assert f[i..i] == "";
  }

  /**
    What is read as a size specifier is the longest one that the text has there, and it
    stands for the type that the table gives it.
   */
  lemma SizeSpelling(f: CString, i: nat, config: Config)
    requires i <= |f|
    ensures ReadsLongest(f, i, config)
  {
    hide Size, Meaning, ReadsAs, ReadsLongest, Bits;
    var c := CharAt(f, i);
    var fast := c == 'w' && CharAt(f, i + 1) == 'f';
    var n := if c == 'w' then Bits(f, if fast then i + 2 else i + 1) else 0;
    var text := if c in "hl" then if CharAt(f, i + 1) == c then [c, c] else [c]
                else if c in "LjzZt" || (c == 'q' && config.apple) then [c]
                else if c == 'w' && n != 0 then (if fast then "wf" else "w") + WidthText(n)
                else if c == 'I' && config.windows && ReadsAt(f, i, "I64") then "I64"
                else "";
    if c in "hl" { SizeOfDoubled(f, i, config); }
    else if c in "LjzZt" || (c == 'q' && config.apple) { SizeOfLetter(f, i, config); }
    else if c == 'w' { SizeOfWidth(f, i, config); }
    else if c == 'I' && config.windows { SizeOfI64(f, i, config); }
    else { SizeOfNone(f, i, config); }
    forall t | Meaning(t, config).Some? && t != "" && ReadsAt(f, i, t) && t[0] == c ensures |t| <= |text| {
      SpecifierShape(config, t);
      NextLetter(f, i, t, 0);
      if c == 'w' { WidthRead(f, i, config, t); }
      else if |t| > 1 { NextLetter(f, i, t, 1); }
    }
    LongestByLetter(f, i, config, text);
  }

  /** A width that the text has at i is the one that Bits finds. */
  lemma WidthRead(f: CString, i: nat, config: Config, t: string)
    requires Meaning(t, config).Some? && t != "" && ReadsAt(f, i, t) && t[0] == 'w' && i < |f|
    ensures var fast := CharAt(f, i + 1) == 'f';
            var n := Bits(f, if fast then i + 2 else i + 1);
            n != 0 && t == (if fast then "wf" else "w") + WidthText(n)
  {
    hide Bits, Meaning;
    SpecifierShape(config, t);
    NextLetter(f, i, t, 0);
    NextLetter(f, i, t, 1);
    var n :| n in {8, 16, 32, 64} && (t == "w" + WidthText(n) || t == "wf" + WidthText(n));
    var j := if t[1] == 'f' then i + 2 else i + 1;
    assert t[j - i..] == WidthText(n);
    assert f[j..j + |WidthText(n)|] == f[i..i + |t|][j - i..];
    assert ReadsAt(f, j, WidthText(n));
    BitsSpelling(f, j);
  }

  /** The size specifier and conversion that demand a type. */
  function KindText(kind: Kind): (s: CString)
    ensures |s| <= 4
  {
    match kind
    case CharKind => "hh"
    case ShortKind => "h"
    case IntKind => ""
    case LongKind => "l"
    case LongLongKind => "ll"
    case Exact(n) => "w" + WidthText(n)
    case Fast(n) => "wf" + WidthText(n)
  }

  function TypeText(t: ArgType): (s: CString)
    ensures 1 <= |s| <= 5
  {
    match t
    case NoArg => "%"
    case Integer(kind, signed) => KindText(kind) + if signed then "d" else "u"
    case Count(kind) => KindText(kind) + "n"
    case Double => "f"
    case LongDouble => "Lf"
    case Char => "c"
    case WideChar => "lc"
    case String => "s"
    case WideString => "ls"
    case Pointer => "p"
    case U8String => "U"
    case U16String => "lU"
    case U32String => "llU"
  }

  predicate Provided(t: ArgType, config: Config) {
    && (t.Integer? || t.Count? ==>
          match t.kind case Exact(n) => WidthText(n) != "" case Fast(n) => WidthText(n) != "" case _ => true)
    && (t.Count? ==> config.withN)
    && (t == WideChar ==> config.hasWint)
    && (t in {U8String, U16String, U32String} ==> config.unistdio)
  }

  /** Every type that the platform has can be demanded, and its spelling demands that type. */
  lemma EveryTypeIsSpelled(t: ArgType, config: Config)
    requires Provided(t, config)
    ensures var s := TypeText(t);
            && Size(s, 0, config).next == |s| - 1
            && Conversion(s[|s| - 1], Size(s, 0, config), config) == Some((t, s[|s| - 1]))
  {
    hide KindText, Size;
    if t.Integer? || t.Count? {
      KindIsSpelled(t.kind, if t.Count? then 'n' else if t.signed then 'd' else 'u', config);
    } else {
      OtherTypeIsSpelled(t, config);
    }
  }

  lemma OtherTypeIsSpelled(t: ArgType, config: Config)
    requires Provided(t, config) && !t.Integer? && !t.Count?
    ensures var s := TypeText(t);
            && Size(s, 0, config).next == |s| - 1
            && Conversion(s[|s| - 1], Size(s, 0, config), config) == Some((t, s[|s| - 1]))
  {
    hide Bits, KindText;
  }

  lemma KindIsSpelled(kind: Kind, c: char, config: Config)
    requires c in "dun" && (kind.Exact? || kind.Fast? ==> WidthText(kind.bits) != "")
    ensures var s: CString := KindText(kind) + [c];
            Size(s, 0, config).kind == kind && Size(s, 0, config).next == |s| - 1
  {
    var s: CString := KindText(kind) + [c];
    if kind.Exact? && kind.bits > 8 { assert s[1..3] == WidthText(kind.bits); }
    if kind.Fast? && kind.bits > 8 { assert s[2..4] == WidthText(kind.bits); }
  }

  /** An argument of a narrow integer type is kept modulo its width, in its range, and unchanged if it is in range. */
  lemma StoredMeans(w: Platform, t: ArgType, n: int)
    requires 0 < WidthIn(w, t)
    ensures var p := Pow2(WidthIn(w, t));
            var signed := SignedIn(w, t);
            var r := Stored(w, t, Numeric(n));
            && r.Numeric? && (exists q: int :: n == r.n + q * p)
            && (WidthIn(w, t) < w.intWidth ==> LeastStored(p, signed) <= r.n <= MostStored(p, signed))
            && (WidthIn(w, t) == w.intWidth || LeastStored(p, signed) <= n <= MostStored(p, signed) ==> r.n == n)
  {
    hide Converted, LeastStored, MostStored;
    var p, signed := Pow2(WidthIn(w, t)), SignedIn(w, t);
    if WidthIn(w, t) == w.intWidth {
      assert n == n + 0 * p;
    } else {
      assert p == 2 * Pow2(WidthIn(w, t) - 1);
      ConvertedInRange(p, signed, n);
      if LeastStored(p, signed) <= n <= MostStored(p, signed) { StoredExactly(p, signed, n); }
    }
  }

  /** r is n modulo 2^bits, in the range of a type of that width. */
  ghost predicate Narrowed(n: int, r: int, bits: nat, signed: bool)
    requires 0 < bits
  {
    && (if signed then 0 - Pow2(bits - 1) <= r < Pow2(bits - 1) else 0 <= r < Pow2(bits))
    && exists q: int :: n == r + q * Pow2(bits)
  }

  /** What becomes of the integer n in an entry of a given type, type by type. */
  ghost predicate Kept(w: Platform, t: ArgType, n: int, bits: nat, signed: bool) {
    var r := Stored(w, t, Numeric(n));
    r.Numeric? && if 0 < bits < w.intWidth then Narrowed(n, r.n, bits, signed) else 0 < bits ==> r.n == n
  }

  /** The width and the signedness of each type whose arguments arrive as an int. */
  lemma StoredByType(w: Platform, n: int)
    ensures Kept(w, Integer(CharKind, true), n, 8, true) && Kept(w, Integer(CharKind, false), n, 8, false)
    ensures Kept(w, Integer(ShortKind, true), n, w.shortWidth, true)
    ensures Kept(w, Integer(ShortKind, false), n, w.shortWidth, false)
    ensures Kept(w, Integer(Exact(8), true), n, 8, true) && Kept(w, Integer(Exact(8), false), n, 8, false)
    ensures Kept(w, Integer(Exact(16), true), n, 16, true) && Kept(w, Integer(Exact(16), false), n, 16, false)
    ensures Kept(w, Integer(Exact(32), true), n, 32, true) && Kept(w, Integer(Exact(32), false), n, 32, false)
    ensures Kept(w, Integer(Fast(8), true), n, w.fast8, true) && Kept(w, Integer(Fast(8), false), n, w.fast8, false)
    ensures Kept(w, Integer(Fast(16), true), n, w.fast16, true) && Kept(w, Integer(Fast(16), false), n, w.fast16, false)
    ensures Kept(w, Integer(Fast(32), true), n, w.fast32, true) && Kept(w, Integer(Fast(32), false), n, w.fast32, false)
    ensures Kept(w, WideChar, n, w.wintWidth, w.wintSigned)
  {
    hide Stored, Kept;
    KindKept(w, CharKind, n, 8);
    KindKept(w, ShortKind, n, w.shortWidth);
    KindKept(w, Exact(8), n, 8);
    KindKept(w, Exact(16), n, 16);
    KindKept(w, Exact(32), n, 32);
    KindKept(w, Fast(8), n, w.fast8);
    KindKept(w, Fast(16), n, w.fast16);
    KindKept(w, Fast(32), n, w.fast32);
    KeptAt(w, WideChar, n, w.wintWidth);
  }

  lemma KindKept(w: Platform, kind: Kind, n: int, bits: nat)
    requires bits == KindWidth(w, kind)
    ensures Kept(w, Integer(kind, true), n, bits, true) && Kept(w, Integer(kind, false), n, bits, false)
  {
    hide Stored, Kept, KindWidth;
    KeptAt(w, Integer(kind, true), n, bits);
    KeptAt(w, Integer(kind, false), n, bits);
  }

  lemma KeptAt(w: Platform, t: ArgType, n: int, bits: nat)
    requires WidthIn(w, t) == if bits < w.intWidth then bits else w.intWidth
    ensures Kept(w, t, n, bits, SignedIn(w, t))
  {
    hide WidthIn, SignedIn, Converted;
    if 0 < WidthIn(w, t) { StoredMeans(w, t, n); }
  }

  /** Every other argument is kept as it has been passed. */
  lemma StoredUnchanged(w: Platform, t: ArgType, v: Datum)
    requires t in {NoArg, Double, LongDouble, Char, Pointer} || t.Count?
             || (t.Integer? && t.kind in {IntKind, LongKind, LongLongKind, Exact(64), Fast(64)})
    ensures Stored(w, t, v) == v
  {}

  lemma EightBits()
    ensures Pow2(8) == 256 && Pow2(7) == 128
  {
    assert Pow2(4) == 16;
  }

  /** An int -1 passed for "%hhd" and for "%hhu", where int is wider than eight bits. */
  lemma MinusOneAsChar(w: Platform)
    requires 8 < w.intWidth
    ensures Stored(w, Integer(CharKind, true), Numeric(-1)) == Numeric(-1)
    ensures Stored(w, Integer(CharKind, false), Numeric(-1)) == Numeric(255)
  {
    hide Stored, Pow2;
    assert Pow2(8) == 256 && Pow2(7) == 128 by { EightBits(); }
    StoredByType(w, -1);
  }

  /** A string is never kept as a null pointer, and another pointer is kept as it is. */
  lemma StoredStrings(w: Platform, t: ArgType, p: nat)
    requires t in {String, WideString, U8String, U16String, U32String}
    ensures Stored(w, t, Address(p)) != Address(0) && (p != 0 ==> Stored(w, t, Address(p)) == Address(p))
  {}
}
