/**
  The language of printf format strings, as gnulib/printf-parse.c accepts it.

  A directive is described by the pieces it is written with.  The description says nothing
  about how a text is scanned; the scanner is proved to accept exactly the texts that have
  one, and to report of them what the pieces mean.
 */
module PrintfGrammar {
  import opened Digits
  import opened PrintfParse
  import opened Wrappers

  // ------------------------------------------------------- what is written

  /** Nothing, a number, or a star, perhaps with the number of its argument. */
  datatype Amount = Nothing | Digits(digits: string) | Starred(position: Option<string>)

  /** The pieces of a directive; a precision without a number is a lone period. */
  datatype Written = Written(position: Option<string>, flags: string, width: Amount, precision: Option<Amount>,
                             size: string, conversion: char)
  {
    /** From the width on. */
    function Rest(): string {
      AmountText(width) + PrecisionText(precision) + size + [conversion]
    }

    function Text(): string {
      "%" + PositionText(position) + flags + Rest()
    }

    /** Where the pieces are, if the directive begins at `start`. */
    function FlagsAt(start: nat): nat { start + 1 + |PositionText(position)| }

    function WidthAt(start: nat): nat { FlagsAt(start) + |flags| }

    function PrecisionAt(start: nat): nat { WidthAt(start) + |AmountText(width)| }

    function SizeAt(start: nat): nat { PrecisionAt(start) + |PrecisionText(precision)| }

    function End(start: nat): nat { SizeAt(start) + |size| + 1 }
  }

  function PositionText(p: Option<string>): string {
    if p.Some? then p.value + "$" else ""
  }

  function AmountText(a: Amount): string {
    match a
    case Nothing => ""
    case Digits(digits) => digits
    case Starred(p) => "*" + PositionText(p)
  }

  function PrecisionText(p: Option<Amount>): string {
    if p.Some? then "." + AmountText(p.value) else ""
  }

  predicate IsNumber(digits: string) {
    digits != "" && forall c :: c in digits ==> IsDecimal(c)
  }

  function NumberOf(digits: string): nat
    requires IsNumber(digits)
  {
    assert IsHexText(digits);
    Value(digits, 10)
  }

  /** Arguments are counted from 1. */
  predicate IsPosition(p: Option<string>) {
    p.Some? ==> IsNumber(p.value) && 0 < NumberOf(p.value) < SIZE_MAX
  }

  predicate IsAmount(a: Amount) {
    match a
    case Nothing => true
    case Digits(digits) => IsNumber(digits)
    case Starred(p) => IsPosition(p)
  }

  predicate IsFlagLetter(c: char, config: Config) {
    match c
    case '-' => true
    case '+' => true
    case ' ' => true
    case '#' => true
    case '0' => true
    case '\'' => true
    case 'I' => config.flagI
    case _ => false
  }

  function Real(longDouble: bool): ArgType {
    if longDouble then LongDouble else Double
  }

  function OfKind(kind: Kind, long: ArgType, longLong: ArgType, otherwise: ArgType): ArgType {
    match kind
    case LongKind => long
    case LongLongKind => longLong
    case _ => otherwise
  }

  /** The conversions, with the type that each demands and the letter recorded for it. */
  function Converts(letter: char, kind: Kind, longDouble: bool, config: Config): Option<(ArgType, char)> {
    match letter
    case 'd' => Some((Integer(kind, true), 'd'))
    case 'i' => Some((Integer(kind, true), 'i'))
    case 'b' => Some((Integer(kind, false), 'b'))
    case 'B' => if config.upperB then Some((Integer(kind, false), 'B')) else None
    case 'o' => Some((Integer(kind, false), 'o'))
    case 'u' => Some((Integer(kind, false), 'u'))
    case 'x' => Some((Integer(kind, false), 'x'))
    case 'X' => Some((Integer(kind, false), 'X'))
    case 'f' => Some((Real(longDouble), 'f'))
    case 'F' => Some((Real(longDouble), 'F'))
    case 'e' => Some((Real(longDouble), 'e'))
    case 'E' => Some((Real(longDouble), 'E'))
    case 'g' => Some((Real(longDouble), 'g'))
    case 'G' => Some((Real(longDouble), 'G'))
    case 'a' => Some((Real(longDouble), 'a'))
    case 'A' => Some((Real(longDouble), 'A'))
    case 'c' =>
      var t := OfKind(kind, WideChar, WideChar, Char);
      if t == WideChar && !config.hasWint then None else Some((t, 'c'))
    case 'C' => if config.hasWint then Some((WideChar, 'c')) else None
    case 's' => Some((OfKind(kind, WideString, WideString, String), 's'))
    case 'S' => Some((WideString, 's'))
    case 'p' => Some((Pointer, 'p'))
    case 'n' => if config.withN then Some((Count(kind), 'n')) else None
    case 'U' => if config.unistdio then Some((OfKind(kind, U16String, U32String, U8String), 'U')) else None
    case '%' => Some((NoArg, '%'))
    case _ => None
  }

  /** The conversion with its size specifier: the type it demands, and how it is recorded. */
  function Demanded(x: Written, config: Config): Option<(ArgType, char)> {
    match PrintfParse.Meaning(x.size, config)
    case None => None
    case Some((kind, longDouble)) => Converts(x.conversion, kind, longDouble, config)
  }

  /** A well-formed directive.  What looks like a flag is one. */
  predicate IsDirective(x: Written, config: Config) {
    && IsPosition(x.position)
    && (forall c :: c in x.flags ==> IsFlagLetter(c, config))
    && !IsFlagLetter(x.Rest()[0], config)
    && IsAmount(x.width)
    && (x.precision.Some? ==> IsAmount(x.precision.value))
    && Demanded(x, config).Some?
  }

  // --------------------------------------------------------- what it means

  /** The number of arguments that a star takes in turn. */
  function Turns(a: Amount): nat {
    if a == Starred(None) then 1 else 0
  }

  function PositionIndex(p: Option<string>, otherwise: nat): nat
    requires IsPosition(p)
  {
    if p.Some? then NumberOf(p.value) - 1 else otherwise
  }

  function AmountIndex(a: Amount, posn: nat): nat
    requires IsAmount(a)
  {
    if a.Starred? then PositionIndex(a.position, posn) else ARG_NONE
  }

  /** The part of an amount that is recorded, after `skip` characters that belong to it as well. */
  function AmountField(a: Amount, i: nat, skip: nat): Field {
    match a
    case Nothing => if skip == 0 then NoField else Field(i, i + skip)
    case Digits(digits) => Field(i, i + skip + |digits|)
    case Starred(_) => Field(i, i + skip + 1)
  }

  /** What is behind the period. */
  function Behind(p: Option<Amount>): Amount {
    if p.Some? then p.value else Nothing
  }

  function PrecisionField(p: Option<Amount>, i: nat): Field {
    if p.Some? then AmountField(p.value, i, 1) else NoField
  }

  /** What is recorded of a directive whose '%' is at `start`, after `posn` arguments in turn. */
  function Recorded(x: Written, start: nat, posn: nat, config: Config): Lexed
    requires IsDirective(x, config)
  {
    var p := posn + Turns(x.width);
    var q := p + Turns(Behind(x.precision));
    var (argType, conversion) := Demanded(x, config).value;
    var index := if argType == NoArg then ARG_NONE else PositionIndex(x.position, q);
    Lexed(Directive(start, x.End(start), CharsOf(x.flags),
                    AmountField(x.width, x.WidthAt(start), 0), AmountIndex(x.width, posn),
                    PrecisionField(x.precision, x.PrecisionAt(start)), AmountIndex(Behind(x.precision), p),
                    conversion, index),
          argType,
          if argType != NoArg && x.position.None? then q + 1 else q)
  }

  // -------------------------------------------------------- reading pieces

  lemma ReadsJoin(f: string, i: nat, a: string, b: string)
    ensures ReadsAt(f, i, a + b) <==> ReadsAt(f, i, a) && ReadsAt(f, i + |a|, b)
  {
    if i + |a + b| <= |f| {
      var whole := f[i..i + |a + b|];
      assert whole[..|a|] == f[i..i + |a|] && whole[|a|..] == f[i + |a|..i + |a| + |b|];
      assert (a + b)[..|a|] == a && (a + b)[|a|..] == b;
      assert whole == whole[..|a|] + whole[|a|..];
    }
  }

  lemma ReadsSlice(f: string, i: nat, t: string)
    requires ReadsAt(f, i, t)
    ensures i + |t| <= |f| && f[i..i + |t|] == t
  {}

  lemma ReadsChar(f: string, i: nat, t: string, k: nat)
    requires ReadsAt(f, i, t) && k < |t|
    ensures i + k < |f| && f[i + k] == t[k]
  {
    NextLetter(f, i, t, k);
  }

  lemma {:induction false} DigitsRead(f: string, i: nat, digits: string)
    requires ReadsAt(f, i, digits) && (forall c :: c in digits ==> IsDecimal(c))
    requires !IsDecimal(CharAt(f, i + |digits|))
    ensures DigitsEnd(f, i) == i + |digits|
    decreases |digits|
  {
    if digits != "" {
      ReadsChar(f, i, digits, 0);
      assert digits == digits[..1] + digits[1..];
      ReadsJoin(f, i, digits[..1], digits[1..]);
      DigitsRead(f, i + 1, digits[1..]);
    }
  }

  lemma {:induction false} FlagsRead(f: CString, i: nat, flags: string, config: Config)
    requires ReadsAt(f, i, flags) && (forall c :: c in flags ==> IsFlagLetter(c, config))
    requires !IsFlagLetter(CharAt(f, i + |flags|), config)
    ensures FlagsEnd(f, i, config) == i + |flags|
    decreases |flags|
  {
    if i < |f| { FlagSame(f[i], config); }
    if flags != "" {
      ReadsChar(f, i, flags, 0);
      assert flags == flags[..1] + flags[1..];
      ReadsJoin(f, i, flags[..1], flags[1..]);
      FlagsRead(f, i + 1, flags[1..], config);
    }
  }

  lemma PositionRead(f: string, i: nat, digits: string)
    requires IsPosition(Some(digits)) && ReadsAt(f, i, digits + "$")
    ensures Positional(f, i) == Here(NumberOf(digits) - 1, i + |digits| + 1)
  {
    ReadsJoin(f, i, digits, "$");
    ReadsChar(f, i + |digits|, "$", 0);
    DigitsRead(f, i, digits);
  }

  /** There is no position at a text without '$' that neither a digit nor '$' follows. */
  lemma PositionAbsent(f: string, i: nat, t: string)
    requires ReadsAt(f, i, t) && '$' !in t
    requires !IsDecimal(CharAt(f, i + |t|)) && CharAt(f, i + |t|) != '$'
    ensures Positional(f, i).Absent?
  {
    var j := DigitsEnd(f, i);
    assert j <= i + |t|;
    if j < i + |t| { ReadsChar(f, i, t, j - i); }
  }

  /** What can follow a width or a precision. */
  predicate Follows(c: char) {
    !IsDecimal(c) && c != '$' && c != '*'
  }

  lemma StarRead(f: CString, i: nat, p: Option<string>, posn: nat, field: Field)
    requires IsPosition(p) && ReadsAt(f, i, PositionText(p)) && Follows(CharAt(f, i + |PositionText(p)|))
    requires posn < ARG_NONE
    ensures Star(f, i, posn, field)
            == Got(field, PositionIndex(p, posn), i + |PositionText(p)|, posn + if p.None? then 1 else 0)
  {
    if p.Some? { PositionRead(f, i, p.value); } else { PositionAbsent(f, i, ""); }
  }

  lemma WidthIsRead(f: CString, i: nat, a: Amount, posn: nat)
    requires IsAmount(a) && ReadsAt(f, i, AmountText(a)) && Follows(CharAt(f, i + |AmountText(a)|)) && posn < ARG_NONE
    ensures Width(f, i, posn)
            == Got(AmountField(a, i, 0), AmountIndex(a, posn), i + |AmountText(a)|, posn + Turns(a))
  {
    hide Star, Width, ReadsAt, Follows, IsPosition;
    match a
    case Nothing => PlainWidth(f, i, "", posn);
    case Digits(digits) => PlainWidth(f, i, digits, posn);
    case Starred(p) =>
      ReadsJoin(f, i, "*", PositionText(p));
      StarWidth(f, i, posn);
      StarRead(f, i + 1, p, posn, Field(i, i + 1));
  }

  lemma PlainWidth(f: CString, i: nat, digits: string, posn: nat)
    requires ReadsAt(f, i, digits) && (forall c :: c in digits ==> IsDecimal(c)) && Follows(CharAt(f, i + |digits|))
    ensures Width(f, i, posn)
            == Got(if digits == "" then NoField else Field(i, i + |digits|), ARG_NONE, i + |digits|, posn)
  {
    hide Star, ReadsAt;
    if digits != "" { ReadsChar(f, i, digits, 0); }
    DigitsRead(f, i, digits);
  }

  lemma StarWidth(f: CString, i: nat, posn: nat)
    requires ReadsAt(f, i, "*")
    ensures i < |f| && f[i] == '*' && Width(f, i, posn) == Star(f, i + 1, posn, Field(i, i + 1))
  {
    hide Star, ReadsAt;
    ReadsChar(f, i, "*", 0);
  }

  /** Behind its period a precision is read like a width. */
  lemma PrecisionAsWidth(f: CString, i: nat, posn: nat)
    requires i < |f| && f[i] == '.'
    ensures var w := Width(f, i + 1, posn);
            Precision(f, i, posn)
            == if w.Bad? then Bad
               else Got(Field(i, if w.field.Field? then w.field.end else i + 1), w.index, w.next, w.posn)
  {
    hide Positional;
  }

  lemma PrecisionIsRead(f: CString, i: nat, a: Amount, posn: nat)
    requires IsAmount(a) && ReadsAt(f, i, "." + AmountText(a)) && posn < ARG_NONE
    requires Follows(CharAt(f, i + 1 + |AmountText(a)|))
    ensures Precision(f, i, posn)
            == Got(AmountField(a, i, 1), AmountIndex(a, posn), i + 1 + |AmountText(a)|, posn + Turns(a))
  {
    hide Precision, Width, ReadsAt, Follows, AmountText;
    ReadsJoin(f, i, ".", AmountText(a));
    ReadsChar(f, i, ".", 0);
    PrecisionAsWidth(f, i, posn);
    WidthIsRead(f, i + 1, a, posn);
    assert AmountText(a) == "" <==> a.Nothing? by { AmountTextEmpty(a); }
  }

  lemma AmountTextEmpty(a: Amount)
    requires IsAmount(a)
    ensures AmountText(a) == "" <==> a.Nothing?
  {}

  /** No conversion continues a size specifier, so the one written is the longest. */
  lemma SizeRead(f: CString, i: nat, x: Written, config: Config)
    requires ReadsAt(f, i, x.size + [x.conversion]) && Demanded(x, config).Some?
    ensures i <= |f|
    ensures var m := Size(f, i, config);
            && m.next == i + |x.size|
            && Some((m.kind, m.longDouble)) == PrintfParse.Meaning(x.size, config)
  {
    hide Size, PrintfParse.Meaning;
    ReadsJoin(f, i, x.size, [x.conversion]);
    ReadsChar(f, i + |x.size|, [x.conversion], 0);
    SizeSpelling(f, i, config);
    var m := Size(f, i, config);
    var text := f[i..m.next];
    assert |x.size| <= |text|;
    assert text[..|x.size|] == x.size;
    SpecifierEnds(text, x, config);
  }

  /** The longest specifier of a text is the one written, if a conversion comes after that. */
  lemma SpecifierEnds(text: string, x: Written, config: Config)
    requires |x.size| <= |text| && text[..|x.size|] == x.size
    requires |x.size| < |text| ==> text[|x.size|] == x.conversion
    requires PrintfParse.Meaning(text, config).Some? && Demanded(x, config).Some?
    ensures text == x.size
  {
    hide PrintfParse.Meaning, Converts;
    SpecifierShape(config, text);
    SpecifierShape(config, x.size);
    var m := PrintfParse.Meaning(x.size, config).value;
    NoConversionStarts(x.conversion, m.0, m.1, config);
    assert x.size != "" ==> x.size[0] == text[0];
    if x.size != "" && text[0] == 'w' { WidthsAreApart(text, x.size, config); }
  }

  lemma NoConversionStarts(c: char, kind: Kind, longDouble: bool, config: Config)
    ensures c in "hlLjzZtwqI" ==> Converts(c, kind, longDouble, config) == None
  {}

  lemma WidthsAreApart(text: string, size: string, config: Config)
    requires 0 < |size| <= |text| && text[..|size|] == size && text[0] == 'w'
    requires PrintfParse.Meaning(text, config).Some? && PrintfParse.Meaning(size, config).Some?
    ensures text == size
  {
    hide PrintfParse.Meaning;
    SpecifierShape(config, text);
    SpecifierShape(config, size);
    assert size[0] == text[0];
    var k :| k in {8, 16, 32, 64} && (text == "w" + WidthText(k) || text == "wf" + WidthText(k));
    var l :| l in {8, 16, 32, 64} && (size == "w" + WidthText(l) || size == "wf" + WidthText(l));
    assert size[1] == text[1];
    if size[1] == 'f' { assert size[2] == text[2]; }
    if k == l { assert text == size; }
  }

  // ------------------------------------------------------ reading directives

  lemma TailFollows(x: Written, config: Config)
    requires Demanded(x, config).Some?
    ensures var c := (x.size + [x.conversion])[0]; Follows(c) && c != '.'
  {
    hide PrintfParse.Meaning, Converts, Follows;
    SpecifierShape(config, x.size);
    if x.size != "" {
      assert (x.size + [x.conversion])[0] == x.size[0];
      SpecifierFollows(x.size[0]);
    } else {
      var m := PrintfParse.Meaning(x.size, config).value;
      ConversionFollows(x.conversion, m.0, m.1, config);
    }
  }

  lemma SpecifierFollows(c: char)
    requires c in "hlLjzZtwqI"
    ensures Follows(c) && c != '.'
  {}

  lemma ConversionFollows(c: char, kind: Kind, longDouble: bool, config: Config)
    ensures Converts(c, kind, longDouble, config).Some? ==> Follows(c) && c != '.'
  {}

  /** The pieces of a directive, where they are in the text. */
  ghost predicate PiecesAt(f: string, start: nat, x: Written) {
    && ReadsAt(f, start, "%") && ReadsAt(f, start + 1, PositionText(x.position))
    && ReadsAt(f, x.FlagsAt(start), x.flags)
    && ReadsAt(f, x.WidthAt(start), AmountText(x.width))
    && ReadsAt(f, x.PrecisionAt(start), PrecisionText(x.precision))
    && ReadsAt(f, x.SizeAt(start), x.size + [x.conversion])
  }

  lemma Pieces(f: string, start: nat, x: Written)
    ensures ReadsAt(f, start, x.Text()) <==> PiecesAt(f, start, x)
    ensures start + |x.Text()| == x.End(start)
  {
    hide ReadsAt, PositionText, AmountText, PrecisionText;
    var p, a := PositionText(x.position), AmountText(x.width);
    var q, t := PrecisionText(x.precision), x.size + [x.conversion];
    assert x.Text() == ((("%" + p) + x.flags) + a) + (q + t);
    ReadsJoin(f, start, (("%" + p) + x.flags) + a, q + t);
    ReadsJoin(f, start, ("%" + p) + x.flags, a);
    ReadsJoin(f, start, "%" + p, x.flags);
    ReadsJoin(f, start, "%", p);
    ReadsJoin(f, x.PrecisionAt(start), q, t);
  }

  lemma AfterPrecision(f: string, start: nat, x: Written, config: Config)
    requires IsDirective(x, config) && PiecesAt(f, start, x)
    ensures Follows(CharAt(f, x.SizeAt(start))) && CharAt(f, x.SizeAt(start)) != '.'
    ensures CharAt(f, x.SizeAt(start)) == (x.size + [x.conversion])[0]
  {
    hide Demanded, Written.SizeAt, Follows, ReadsAt, IsAmount, IsPosition, IsFlagLetter;
    TailFollows(x, config);
    ReadsChar(f, x.SizeAt(start), x.size + [x.conversion], 0);
  }

  lemma AfterWidth(f: string, start: nat, x: Written, config: Config)
    requires IsDirective(x, config) && PiecesAt(f, start, x)
    ensures Follows(CharAt(f, x.PrecisionAt(start)))
    ensures CharAt(f, x.PrecisionAt(start)) == '.' <==> x.precision.Some?
    ensures CharAt(f, x.PrecisionAt(start)) == (PrecisionText(x.precision) + x.size + [x.conversion])[0]
  {
    hide Demanded, Written.PrecisionAt, ReadsAt, IsAmount, IsPosition, AmountText, IsFlagLetter;
    AfterPrecision(f, start, x, config);
    if x.precision.Some? {
      ReadsChar(f, x.PrecisionAt(start), PrecisionText(x.precision), 0);
    } else {
      assert PrecisionText(x.precision) + x.size + [x.conversion] == x.size + [x.conversion];
    }
  }

  lemma AfterFlags(f: string, start: nat, x: Written, config: Config)
    requires IsDirective(x, config) && PiecesAt(f, start, x)
    ensures CharAt(f, x.WidthAt(start)) == x.Rest()[0]
  {
    hide Demanded, Written.WidthAt, ReadsAt, Follows, IsPosition, IsFlagLetter, AmountText, PrecisionText, IsAmount;
    AfterWidth(f, start, x, config);
    var t := PrecisionText(x.precision) + x.size + [x.conversion];
    assert x.Rest() == AmountText(x.width) + t;
    if AmountText(x.width) != "" {
      ReadsChar(f, x.WidthAt(start), AmountText(x.width), 0);
    } else {
      assert x.Rest() == t;
    }
  }

  /** The position, or its absence. */
  lemma PositionOf(f: string, start: nat, x: Written, config: Config)
    requires IsDirective(x, config) && PiecesAt(f, start, x)
    ensures Positional(f, start + 1)
            == match x.position
               case None => Absent
               case Some(digits) => Here(NumberOf(digits) - 1, start + 1 + |digits| + 1)
  {
    hide Demanded, Positional, NumberOf, ReadsAt, Written.WidthAt, Written.PrecisionAt;
    if x.position.Some? {
      PositionRead(f, start + 1, x.position.value);
    } else {
      NoPosition(f, start, x, config);
    }
  }

  lemma NoDollar(x: Written, config: Config)
    requires IsAmount(x.width) && forall c :: c in x.flags ==> IsFlagLetter(c, config)
    ensures '$' !in x.flags
    ensures if x.width.Starred? then AmountText(x.width) != "" && AmountText(x.width)[0] == '*'
            else '$' !in AmountText(x.width)
  {
    assert !IsFlagLetter('$', config) && !IsDecimal('$');
  }

  lemma NoPosition(f: string, start: nat, x: Written, config: Config)
    requires IsDirective(x, config) && PiecesAt(f, start, x) && x.position.None?
    ensures Positional(f, start + 1).Absent?
  {
    hide Demanded, Positional, NumberOf, ReadsAt, AmountText, IsAmount, IsFlagLetter, Written.Text, Written.Rest;
    AfterWidth(f, start, x, config);
    assert x.FlagsAt(start) == start + 1;
    NoDollar(x, config);
    if x.width.Starred? {
      ReadsChar(f, x.WidthAt(start), AmountText(x.width), 0);
      PositionAbsent(f, start + 1, x.flags);
    } else {
      ReadsJoin(f, start + 1, x.flags, AmountText(x.width));
      PositionAbsent(f, start + 1, x.flags + AmountText(x.width));
    }
  }

  lemma ConversionRead(f: CString, i: nat, x: Written, config: Config)
    requires ReadsAt(f, i, x.size + [x.conversion]) && Demanded(x, config).Some? && i <= |f|
    ensures var m := Size(f, i, config);
            && m.next == i + |x.size|
            && Conversion(CharAt(f, m.next), m, config) == Demanded(x, config)
  {
    hide PrintfParse.Meaning, Size, Conversion, Converts;
    SizeRead(f, i, x, config);
    ReadsChar(f, i, x.size + [x.conversion], |x.size|);
    ConversionSame(x.conversion, Size(f, i, config), config);
  }

  /** The scanner has the same conversions and flags as the grammar. */
  lemma ConversionSame(c: char, m: Modifier, config: Config)
    ensures Conversion(c, m, config) == Converts(c, m.kind, m.longDouble, config)
  {}

  lemma FlagSame(c: char, config: Config)
    ensures IsFlag(c, config) <==> IsFlagLetter(c, config)
  {}

  lemma PiecesInside(f: string, start: nat, x: Written)
    requires PiecesAt(f, start, x)
    ensures start < x.FlagsAt(start) <= x.WidthAt(start) <= x.PrecisionAt(start) <= x.SizeAt(start)
    ensures x.SizeAt(start) + |x.size| < |f|
    ensures Turns(x.width) <= x.PrecisionAt(start) - x.WidthAt(start)
    ensures Turns(Behind(x.precision)) <= x.SizeAt(start) - x.PrecisionAt(start)
  {
    hide ReadsAt;
    ReadsChar(f, x.SizeAt(start), x.size + [x.conversion], |x.size|);
  }

  lemma WidthPiece(f: CString, start: nat, posn: nat, x: Written, config: Config)
    requires IsDirective(x, config) && PiecesAt(f, start, x) && posn < ARG_NONE
    ensures x.PrecisionAt(start) <= |f|
    ensures Width(f, x.WidthAt(start), posn)
            == Got(AmountField(x.width, x.WidthAt(start), 0), AmountIndex(x.width, posn),
                   x.PrecisionAt(start), posn + Turns(x.width))
  {
    hide Demanded, NumberOf, Width, ReadsAt, IsFlagLetter, AmountField, Follows, AmountText, IsAmount;
    hide AmountIndex, Turns;
    PiecesInside(f, start, x);
    AfterWidth(f, start, x, config);
    WidthIsRead(f, x.WidthAt(start), x.width, posn);
  }

  lemma PrecisionPiece(f: CString, start: nat, posn: nat, x: Written, config: Config)
    requires IsDirective(x, config) && PiecesAt(f, start, x) && posn < ARG_NONE
    ensures x.SizeAt(start) <= |f|
    ensures Precision(f, x.PrecisionAt(start), posn)
            == Got(PrecisionField(x.precision, x.PrecisionAt(start)), AmountIndex(Behind(x.precision), posn),
                   x.SizeAt(start), posn + Turns(Behind(x.precision)))
  {
    hide Demanded, NumberOf, Precision, ReadsAt, IsFlagLetter, AmountField, Follows, AmountText, Written.PrecisionAt;
    PiecesInside(f, start, x);
    AfterWidth(f, start, x, config);
    AfterPrecision(f, start, x, config);
    if x.precision.Some? {
      PrecisionIsRead(f, x.PrecisionAt(start), x.precision.value, posn);
    } else {
      NoPrecision(f, x.PrecisionAt(start), posn);
    }
  }

  /** From the width on. */
  lemma BodyRead(f: CString, start: nat, posn: nat, x: Written, config: Config)
    requires IsDirective(x, config) && PiecesAt(f, start, x) && posn <= start && start <= |f|
    ensures x.WidthAt(start) <= |f|
    ensures LexBody(f, x.WidthAt(start), posn, config, PositionIndex(x.position, ARG_NONE),
                    Begun(start, CharsOf(x.flags)))
            == Some(Recorded(x, start, posn, config))
  {
    hide Demanded, NumberOf, Width, Precision, Size, Conversion, ReadsAt, IsFlagLetter, AmountField;
    hide AmountText, IsAmount;
    hide Written.WidthAt, Written.PrecisionAt, Written.SizeAt, PrecisionField, AmountIndex;
    PiecesInside(f, start, x);
    WidthPiece(f, start, posn, x, config);
    PrecisionPiece(f, start, posn + Turns(x.width), x, config);
    ConversionRead(f, x.SizeAt(start), x, config);
  }

  /** A text that has a well-formed directive is read as that directive. */
  lemma DirectiveRead(f: CString, start: nat, posn: nat, x: Written, config: Config)
    requires IsDirective(x, config) && ReadsAt(f, start, x.Text()) && posn <= start
    ensures start < |f| && f[start] == '%'
    ensures LexDirective(f, start, posn, config) == Some(Recorded(x, start, posn, config))
    ensures Recorded(x, start, posn, config).d.end == x.End(start)
    ensures Recorded(x, start, posn, config).posn <= x.End(start) == start + |x.Text()| <= |f|
  {
    hide Demanded, Positional, NumberOf, LexBody, FlagsEnd, Recorded, ReadsAt, AmountText, PrecisionText, IsAmount;
    hide Written.Rest, Written.Text, IsFlagLetter;
    Pieces(f, start, x);
    PiecesInside(f, start, x);
    ReadsChar(f, start, "%", 0);
    AfterFlags(f, start, x, config);
    PositionOf(f, start, x, config);
    FlagsRead(f, x.FlagsAt(start), x.flags, config);
    assert f[x.FlagsAt(start)..x.WidthAt(start)] == x.flags by { ReadsSlice(f, x.FlagsAt(start), x.flags); }
    BodyRead(f, start, posn, x, config);
    TurnsAreFew(x, start, posn, config);
  }

  lemma TurnsAreFew(x: Written, start: nat, posn: nat, config: Config)
    requires IsDirective(x, config) && posn <= start
    ensures Recorded(x, start, posn, config).d.end == x.End(start)
    ensures Recorded(x, start, posn, config).posn <= x.End(start)
  {
    hide Demanded, NumberOf;
  }

  lemma NoPrecision(f: CString, i: nat, posn: nat)
    requires i <= |f| && CharAt(f, i) != '.'
    ensures Precision(f, i, posn) == Got(NoField, ARG_NONE, i, posn)
  {}

  // ------------------------------------------------- what has been written

  ghost function WrittenPosition(f: string, i: nat): Option<string>
    requires i <= |f|
  {
    if Positional(f, i).Here? then Some(f[i..DigitsEnd(f, i)]) else None
  }

  ghost function WrittenAmount(f: string, i: nat): Amount
    requires i <= |f|
  {
    if CharAt(f, i) == '*' then Starred(WrittenPosition(f, i + 1))
    else if DigitsEnd(f, i) > i then Digits(f[i..DigitsEnd(f, i)])
    else Nothing
  }

  lemma PositionWritten(f: string, i: nat)
    requires i <= |f| && !Positional(f, i).Wrong?
    ensures var p := WrittenPosition(f, i);
            && IsPosition(p) && ReadsAt(f, i, PositionText(p))
            && i + |PositionText(p)| == if Positional(f, i).Here? then Positional(f, i).next else i
  {
    hide Value;
    var j := DigitsEnd(f, i);
    if Positional(f, i).Here? { assert f[i..j + 1] == f[i..j] + "$"; }
  }

  lemma WidthWritten(f: CString, i: nat, posn: nat)
    requires i <= |f| && Width(f, i, posn).Got?
    ensures var a := WrittenAmount(f, i);
            IsAmount(a) && ReadsAt(f, i, AmountText(a)) && i + |AmountText(a)| == Width(f, i, posn).next
  {
    hide IsPosition, Positional, WrittenPosition, PositionText, ReadsAt;
    if CharAt(f, i) == '*' {
      hide DigitsEnd;
      var p := WrittenPosition(f, i + 1);
      PositionWritten(f, i + 1);
      OneChar(f, i);
      ReadsJoin(f, i, "*", PositionText(p));
    } else {
      SliceRead(f, i, DigitsEnd(f, i));
      NothingRead(f, i);
    }
  }

  ghost function WrittenPrecision(f: string, i: nat): Option<Amount>
    requires i <= |f|
  {
    if CharAt(f, i) == '.' && i < |f| then Some(WrittenAmount(f, i + 1)) else None
  }

  lemma PrecisionWritten(f: CString, i: nat, posn: nat)
    requires i <= |f| && Precision(f, i, posn).Got?
    ensures var p := WrittenPrecision(f, i);
            && (p.Some? ==> IsAmount(p.value)) && ReadsAt(f, i, PrecisionText(p))
            && i + |PrecisionText(p)| == Precision(f, i, posn).next
  {
    hide IsAmount, Star, WrittenAmount, AmountText, ReadsAt;
    var p := WrittenPrecision(f, i);
    if p.Some? {
      PrecisionAsWidth(f, i, posn);
      WidthWritten(f, i + 1, posn);
      assert ReadsAt(f, i, ".") by { OneChar(f, i); }
      ReadsJoin(f, i, ".", AmountText(p.value));
    } else {
      NothingRead(f, i);
    }
  }

  lemma OneChar(f: string, i: nat)
    requires i < |f|
    ensures ReadsAt(f, i, [f[i]])
  {}

  lemma NothingRead(f: string, i: nat)
    requires i <= |f|
    ensures ReadsAt(f, i, "")
  {}

  lemma {:induction false} FlagsStop(f: CString, i: nat, config: Config)
    requires i <= |f|
    ensures forall k :: i <= k < FlagsEnd(f, i, config) ==> IsFlagLetter(f[k], config)
    ensures FlagsEnd(f, i, config) == |f| || !IsFlagLetter(f[FlagsEnd(f, i, config)], config)
    decreases |f| - i
  {
    if i < |f| { FlagSame(f[i], config); }
    if i < |f| && IsFlagLetter(f[i], config) { FlagsStop(f, i + 1, config); }
  }

  /** From the width on: whatever is accepted is written with well-formed pieces. */
  lemma BodyWritten(f: CString, i: nat, posn: nat, config: Config, index: nat, d: Directive)
      returns (width: Amount, precision: Option<Amount>, size: string, c: char)
    requires i <= |f| && LexBody(f, i, posn, config, index, d).Some?
    ensures IsAmount(width) && (precision.Some? ==> IsAmount(precision.value))
    ensures ReadsAt(f, i, AmountText(width) + PrecisionText(precision) + size + [c])
    ensures Demanded(Written(None, "", width, precision, size, c), config).Some?
  {
    hide IsAmount, Width, Precision, Size, Conversion, Converts, PrintfParse.Meaning, ReadsAt;
    hide AmountText, PrecisionText;
    hide WrittenAmount, WrittenPrecision;
    WidthWritten(f, i, posn);
    var w := Width(f, i, posn);
    PrecisionWritten(f, w.next, w.posn);
    var q := Precision(f, w.next, w.posn);
    SizeSpelling(f, q.next, config);
    var m := Size(f, q.next, config);
    width, precision, size, c := WrittenAmount(f, i), WrittenPrecision(f, w.next), f[q.next..m.next], f[m.next];
    ConversionSame(c, m, config);
    SliceRead(f, q.next, m.next);
    OneChar(f, m.next);
    ReadsJoin(f, i, AmountText(width), PrecisionText(precision));
    ReadsJoin(f, i, AmountText(width) + PrecisionText(precision), size);
    ReadsJoin(f, i, AmountText(width) + PrecisionText(precision) + size, [c]);
  }

  lemma SliceRead(f: string, i: nat, j: nat)
    requires i <= j <= |f|
    ensures ReadsAt(f, i, f[i..j])
  {}

  /** Whatever is accepted as a directive is one. */
  lemma DirectiveWritten(f: CString, start: nat, posn: nat, config: Config) returns (x: Written)
    requires start < |f| && f[start] == '%' && LexDirective(f, start, posn, config).Some?
    ensures IsDirective(x, config) && ReadsAt(f, start, x.Text())
  {
    hide IsAmount, LexBody, Positional, ReadsAt, AmountText, PrecisionText, Demanded, PositionText;
    hide FlagsEnd, IsFlagLetter;
    hide WrittenPosition;
    var p := Positional(f, start + 1);
    var i := if p.Here? then p.next else start + 1;
    var j := FlagsEnd(f, i, config);
    var index, d := if p.Here? then p.index else ARG_NONE, Begun(start, CharsOf(f[i..j]));
    var position, flags := WrittenPosition(f, start + 1), f[i..j];
    PositionWritten(f, start + 1);
    SliceRead(f, i, j);
    FlagsStop(f, i, config);
    var width, precision, size, c := BodyWritten(f, j, posn, config, index, d);
    x := Written(position, flags, width, precision, size, c);
    DemandedSame(x, config);
    ReadsChar(f, j, x.Rest(), 0);
    OneChar(f, start);
    ReadsJoin(f, start, "%", PositionText(position));
    ReadsJoin(f, start, "%" + PositionText(position), flags);
    ReadsJoin(f, start, "%" + PositionText(position) + flags, x.Rest());
  }

  lemma DemandedSame(x: Written, config: Config)
    ensures Demanded(x, config) == Demanded(Written(None, "", x.width, x.precision, x.size, x.conversion), config)
  {}

  // -------------------------------------------------------------- formats

  /** A format string: characters that are copied, and directives. */
  datatype Piece = Copy(c: char) | Convert(x: Written)

  predicate IsPiece(p: Piece, config: Config) {
    match p
    case Copy(c) => c != '%' && (config.onlyAscii ==> c as int < 128)
    case Convert(x) => IsDirective(x, config)
  }

  predicate IsFormat(ps: seq<Piece>, config: Config) {
    forall k :: 0 <= k < |ps| ==> IsPiece(ps[k], config)
  }

  function PieceText(p: Piece): string {
    match p
    case Copy(c) => [c]
    case Convert(x) => x.Text()
  }

  function FormatText(ps: seq<Piece>): string {
    if ps == [] then "" else PieceText(ps[0]) + FormatText(ps[1..])
  }

  /** What is recorded of a format from position i on, after `posn` arguments in turn. */
  function RecordedAll(ps: seq<Piece>, i: nat, posn: nat, config: Config): seq<Lexed>
    requires IsFormat(ps, config)
  {
    if ps == [] then []
    else
      match ps[0]
      case Copy(_) => RecordedAll(ps[1..], i + 1, posn, config)
      case Convert(x) =>
        var r := Recorded(x, i, posn, config);
        [r] + RecordedAll(ps[1..], x.End(i), r.posn, config)
  }

  lemma LexStep(f: CString, i: nat, posn: nat, config: Config)
    requires i <= |f|
    ensures i == |f| ==> Lex(f, i, posn, config) == Some([])
    ensures i < |f| && f[i] != '%' && (config.onlyAscii ==> f[i] as int < 128) ==>
              Lex(f, i, posn, config) == Lex(f, i + 1, posn, config)
    ensures i < |f| && f[i] == '%' && LexDirective(f, i, posn, config).Some? ==>
              var x := LexDirective(f, i, posn, config).value;
              Lex(f, i, posn, config) == Prepend([x], Lex(f, x.d.end, x.posn, config))
  {
    hide LexDirective;
  }

  /** Every format is accepted, and read as its pieces. */
  lemma {:induction false} FormatRead(f: CString, i: nat, posn: nat, ps: seq<Piece>, config: Config)
    requires posn <= i && IsFormat(ps, config) && ReadsAt(f, i, FormatText(ps)) && i + |FormatText(ps)| == |f|
    ensures Lex(f, i, posn, config) == Some(RecordedAll(ps, i, posn, config))
    decreases |ps|
  {
    hide LexDirective, IsDirective, Recorded, ReadsAt, Lex, Written.Text, Written.End;
    LexStep(f, i, posn, config);
    if ps != [] {
      ReadsJoin(f, i, PieceText(ps[0]), FormatText(ps[1..]));
      match ps[0]
      case Copy(c) =>
        ReadsChar(f, i, [c], 0);
        FormatRead(f, i + 1, posn, ps[1..], config);
      case Convert(x) =>
        DirectiveRead(f, i, posn, x, config);
        FormatRead(f, x.End(i), Recorded(x, i, posn, config).posn, ps[1..], config);
    }
  }

  /** Whatever is accepted is a format. */
  lemma {:induction false} FormatWritten(f: CString, i: nat, posn: nat, config: Config) returns (ps: seq<Piece>)
    requires posn <= i <= |f| && Lex(f, i, posn, config).Some?
    ensures IsFormat(ps, config) && ReadsAt(f, i, FormatText(ps)) && i + |FormatText(ps)| == |f|
    decreases |f| - i
  {
    hide LexDirective, IsDirective, Recorded, ReadsAt, Written.Text, Written.End;
    ps := [];
    if i == |f| {
      NothingRead(f, i);
    } else {
      var p, rest;
      if f[i] == '%' {
        var x := DirectiveWritten(f, i, posn, config);
        DirectiveRead(f, i, posn, x, config);
        p := Convert(x);
        rest := FormatWritten(f, x.End(i), Recorded(x, i, posn, config).posn, config);
      } else {
        OneChar(f, i);
        p := Copy(f[i]);
        rest := FormatWritten(f, i + 1, posn, config);
      }
      ps := [p] + rest;
      assert ps[1..] == rest;
      ReadsJoin(f, i, PieceText(p), FormatText(rest));
    }
  }

  lemma ReadsWhole(f: string, t: string)
    ensures ReadsAt(f, 0, t) && |t| == |f| <==> f == t
  {
    if ReadsAt(f, 0, t) && |t| == |f| { assert f[0..|t|] == f; }
  }

  /** The directives of a text can be read exactly if the text is a format. */
  lemma LexesExactlyFormats(f: CString, config: Config)
    ensures Lex(f, 0, 0, config).Some? <==> exists ps :: IsFormat(ps, config) && FormatText(ps) == f
  {
    hide Lex, IsFormat, FormatText, ReadsAt;
    if Lex(f, 0, 0, config).Some? {
      var ps := FormatWritten(f, 0, 0, config);
      ReadsWhole(f, FormatText(ps));
    }
    if ps :| IsFormat(ps, config) && FormatText(ps) == f {
      ReadsWhole(f, FormatText(ps));
      FormatRead(f, 0, 0, ps, config);
    }
  }

  /** The meaning of a format: its directives, and the types of its arguments if no two disagree. */
  lemma FormatMeans(f: CString, ps: seq<Piece>, config: Config)
    requires IsFormat(ps, config) && FormatText(ps) == f
    ensures var xs := RecordedAll(ps, 0, 0, config);
            && (Table(AllDemands(xs)).Some? <==> Agreeing(AllDemands(xs)))
            && Parse(f, config) == match Table(AllDemands(xs))
                                   case None => None
                                   case Some(t) => Some(Parsed(DirectivesOf(xs), t))
  {
    hide Lex, IsFormat, FormatText, ReadsAt, RecordedAll;
    ReadsWhole(f, FormatText(ps));
    FormatRead(f, 0, 0, ps, config);
    RefusedExactly(f, config);
  }

  /** A text is accepted exactly if it is a format whose directives agree on the types of the arguments. */
  lemma AcceptedExactly(f: CString, config: Config)
    ensures Parse(f, config).Some? <==>
              exists ps :: && IsFormat(ps, config) && FormatText(ps) == f
                           && Agreeing(AllDemands(RecordedAll(ps, 0, 0, config)))
  {
    hide Lex, IsFormat, FormatText, RecordedAll, Agreeing;
    if Parse(f, config).Some? {
      LexesExactlyFormats(f, config);
      var ps :| IsFormat(ps, config) && FormatText(ps) == f;
      FormatMeans(f, ps, config);
    }
    if ps :| IsFormat(ps, config) && FormatText(ps) == f && Agreeing(AllDemands(RecordedAll(ps, 0, 0, config))) {
      FormatMeans(f, ps, config);
    }
  }

  // ------------------------------------------------- a text is one format only

  lemma SameSlice(f: string, i: nat, a: string, b: string)
    requires ReadsAt(f, i, a) && ReadsAt(f, i, b) && |a| == |b|
    ensures a == b
  {}

  lemma AmountUnique(a: Amount, b: Amount)
    requires IsAmount(a) && IsAmount(b) && AmountText(a) == AmountText(b)
    ensures a == b
  {
    var t := AmountText(a);
    assert t == AmountText(b);
    if a.Digits? || b.Digits? { assert t != "" && IsDecimal(t[0]); }
    if a.Starred? || b.Starred? { assert t[0] == '*'; }
    if a.Starred? && b.Starred? {
      assert t[1..] == PositionText(a.position) == PositionText(b.position);
      PositionUnique(a.position, b.position);
    }
  }

  lemma PositionUnique(p: Option<string>, q: Option<string>)
    requires PositionText(p) == PositionText(q)
    ensures p == q
  {
    var t := PositionText(p);
    if t != "" { assert p == Some(t[..|t| - 1]) && q == Some(t[..|t| - 1]); }
  }

  /** Two directives written at the same place are the same. */
  lemma DirectiveUnique(f: CString, start: nat, x: Written, y: Written, config: Config)
    requires IsDirective(x, config) && ReadsAt(f, start, x.Text())
    requires IsDirective(y, config) && ReadsAt(f, start, y.Text())
    ensures x == y
  {
    hide Demanded, ReadsAt, AmountText, IsAmount, IsPosition, FlagsEnd, Positional, NumberOf, Width, Precision;
    Pieces(f, start, x);
    Pieces(f, start, y);
    PositionOf(f, start, x, config);
    PositionOf(f, start, y, config);
    SameSlice(f, start + 1, PositionText(x.position), PositionText(y.position));
    PositionUnique(x.position, y.position);
    AfterFlags(f, start, x, config);
    AfterFlags(f, start, y, config);
    FlagsRead(f, x.FlagsAt(start), x.flags, config);
    FlagsRead(f, y.FlagsAt(start), y.flags, config);
    SameSlice(f, x.FlagsAt(start), x.flags, y.flags);
    FieldsUnique(f, start, x, y, config);
  }

  lemma FieldsUnique(f: CString, start: nat, x: Written, y: Written, config: Config)
    requires IsDirective(x, config) && PiecesAt(f, start, x)
    requires IsDirective(y, config) && PiecesAt(f, start, y)
    requires x.position == y.position && x.flags == y.flags
    ensures x == y
  {
    hide Demanded, ReadsAt, AmountText, IsPosition, IsAmount, NumberOf, Width, Precision, IsFlagLetter, PrecisionText;
    hide AmountField, PrecisionField, AmountIndex, Turns;
    WidthPiece(f, start, 0, x, config);
    WidthPiece(f, start, 0, y, config);
    SameSlice(f, x.WidthAt(start), AmountText(x.width), AmountText(y.width));
    AmountUnique(x.width, y.width);
    PrecisionPiece(f, start, 0, x, config);
    PrecisionPiece(f, start, 0, y, config);
    SameSlice(f, x.PrecisionAt(start), PrecisionText(x.precision), PrecisionText(y.precision));
    PrecisionUnique(x.precision, y.precision);
    ConversionUnique(f, x.SizeAt(start), x, y, config);
  }

  lemma PrecisionUnique(p: Option<Amount>, q: Option<Amount>)
    requires (p.Some? ==> IsAmount(p.value)) && (q.Some? ==> IsAmount(q.value)) && PrecisionText(p) == PrecisionText(q)
    ensures p == q
  {
    hide AmountText, IsAmount;
    var t := PrecisionText(p);
    if t != "" {
      assert t[1..] == AmountText(p.value) && t[1..] == AmountText(q.value);
      AmountUnique(p.value, q.value);
    }
  }

  lemma ConversionUnique(f: CString, i: nat, x: Written, y: Written, config: Config)
    requires ReadsAt(f, i, x.size + [x.conversion]) && Demanded(x, config).Some?
    requires ReadsAt(f, i, y.size + [y.conversion]) && Demanded(y, config).Some?
    ensures x.size == y.size && x.conversion == y.conversion
  {
    hide Demanded, ReadsAt, Size;
    var s, t := x.size + [x.conversion], y.size + [y.conversion];
    SizeRead(f, i, x, config);
    SizeRead(f, i, y, config);
    SameSlice(f, i, s, t);
    assert x.size == s[..|x.size|] && x.conversion == s[|x.size|];
    assert y.size == t[..|y.size|] && y.conversion == t[|y.size|];
  }

  lemma PieceUnique(f: CString, i: nat, p: Piece, q: Piece, config: Config)
    requires IsPiece(p, config) && ReadsAt(f, i, PieceText(p))
    requires IsPiece(q, config) && ReadsAt(f, i, PieceText(q))
    ensures p == q
  {
    hide IsDirective, ReadsAt, Written.Rest;
    ReadsChar(f, i, PieceText(p), 0);
    ReadsChar(f, i, PieceText(q), 0);
    if p.Convert? && q.Convert? { DirectiveUnique(f, i, p.x, q.x, config); }
  }

  lemma {:induction false} PiecesUnique(f: CString, i: nat, ps: seq<Piece>, qs: seq<Piece>, config: Config)
    requires IsFormat(ps, config) && ReadsAt(f, i, FormatText(ps)) && i + |FormatText(ps)| == |f|
    requires IsFormat(qs, config) && ReadsAt(f, i, FormatText(qs)) && i + |FormatText(qs)| == |f|
    ensures ps == qs
    decreases |ps|
  {
    hide IsDirective, ReadsAt, PieceText;
    if ps == [] || qs == [] {
      PieceNotEmpty(ps);
      PieceNotEmpty(qs);
    } else {
      var p, q := ps[0], qs[0];
      ReadsJoin(f, i, PieceText(p), FormatText(ps[1..]));
      ReadsJoin(f, i, PieceText(q), FormatText(qs[1..]));
      PieceUnique(f, i, p, q, config);
      PiecesUnique(f, i + |PieceText(p)|, ps[1..], qs[1..], config);
      assert ps == [p] + ps[1..] && qs == [q] + qs[1..];
    }
  }

  lemma PieceNotEmpty(ps: seq<Piece>)
    ensures FormatText(ps) == "" <==> ps == []
  {
    if ps != [] { assert |PieceText(ps[0])| > 0; }
  }

  /** A text is a format in one way only. */
  lemma FormatUnique(ps: seq<Piece>, qs: seq<Piece>, config: Config)
    requires IsFormat(ps, config) && IsFormat(qs, config) && FormatText(ps) == FormatText(qs)
    requires '\0' !in FormatText(ps) && |FormatText(ps)| < SIZE_MAX
    ensures ps == qs
  {
    hide IsFormat, FormatText, ReadsAt;
    var f: CString := FormatText(ps);
    ReadsWhole(f, FormatText(ps));
    PiecesUnique(f, 0, ps, qs, config);
  }

  // ------------------------------------------------------- the longest amounts

  function WidthLength(a: Amount): nat {
    match a
    case Nothing => 0
    case Digits(digits) => |digits|
    case Starred(_) => 1
  }

  function PrecisionLength(p: Option<Amount>): nat {
    if p.Some? then 1 + WidthLength(p.value) else 0
  }

  function Greater(m: nat, n: nat): nat {
    if m < n then n else m
  }

  function LongestWidth(ps: seq<Piece>): nat {
    if ps == [] then 0
    else Greater(if ps[0].Convert? then WidthLength(ps[0].x.width) else 0, LongestWidth(ps[1..]))
  }

  function LongestPrecision(ps: seq<Piece>): nat {
    if ps == [] then 0
    else Greater(if ps[0].Convert? then PrecisionLength(ps[0].x.precision) else 0, LongestPrecision(ps[1..]))
  }

  lemma LongestCons(m: nat, field: Field, fields: seq<Field>)
    requires IsLongest(m, fields)
    ensures 0 <= Length(field) ==> IsLongest(Greater(Length(field), m), [field] + fields)
  {
    var all := [field] + fields;
    assert all[0] == field && forall k :: 0 < k < |all| ==> all[k] == fields[k - 1];
    if k :| 0 <= k < |fields| && Length(fields[k]) == m { assert all[k + 1] == fields[k]; }
  }

  lemma RecordedLengths(x: Written, start: nat, posn: nat, config: Config)
    requires IsDirective(x, config)
    ensures Length(Recorded(x, start, posn, config).d.width) == WidthLength(x.width)
    ensures Length(Recorded(x, start, posn, config).d.precision) == PrecisionLength(x.precision)
  {
    hide Demanded, NumberOf;
  }

  lemma {:induction false} RecordedLongest(ps: seq<Piece>, i: nat, posn: nat, config: Config)
    requires IsFormat(ps, config)
    ensures var ds := DirectivesOf(RecordedAll(ps, i, posn, config));
            IsLongest(LongestWidth(ps), Widths(ds)) && IsLongest(LongestPrecision(ps), Precisions(ds))
    decreases |ps|
  {
    hide IsDirective, Recorded, IsLongest, Length;
    if ps == [] {
      LongestEmpty();
      assert DirectivesOf([]) == [];
    } else {
      match ps[0]
      case Copy(_) =>
        RecordedLongest(ps[1..], i + 1, posn, config);
        GreaterZero(ps);
      case Convert(x) =>
        var r := Recorded(x, i, posn, config);
        RecordedLongest(ps[1..], x.End(i), r.posn, config);
        var xs := RecordedAll(ps[1..], x.End(i), r.posn, config);
        RecordedLengths(x, i, posn, config);
        assert Widths(DirectivesOf([r] + xs)) == [r.d.width] + Widths(DirectivesOf(xs));
        assert Precisions(DirectivesOf([r] + xs)) == [r.d.precision] + Precisions(DirectivesOf(xs));
        LongestCons(LongestWidth(ps[1..]), r.d.width, Widths(DirectivesOf(xs)));
        LongestCons(LongestPrecision(ps[1..]), r.d.precision, Precisions(DirectivesOf(xs)));
    }
  }

  lemma GreaterZero(ps: seq<Piece>)
    requires ps != [] && ps[0].Copy?
    ensures LongestWidth(ps) == LongestWidth(ps[1..]) && LongestPrecision(ps) == LongestPrecision(ps[1..])
  {}

  lemma LongestUnique(m: nat, n: nat, fields: seq<Field>)
    requires IsLongest(m, fields) && IsLongest(n, fields)
    ensures m == n
  {}

  /** The lengths that the parser reports are those of the longest width and precision written. */
  lemma LongestMeans(f: CString, ps: seq<Piece>, config: Config, width: nat, precision: nat)
    requires IsFormat(ps, config) && FormatText(ps) == f && Parse(f, config).Some?
    requires IsLongest(width, Widths(Parse(f, config).value.directives))
    requires IsLongest(precision, Precisions(Parse(f, config).value.directives))
    ensures width == LongestWidth(ps) && precision == LongestPrecision(ps)
  {
    hide Parse, IsFormat, FormatText, RecordedAll, IsLongest, Widths, Precisions, LongestWidth, LongestPrecision;
    FormatMeans(f, ps, config);
    RecordedLongest(ps, 0, 0, config);
    var ds := DirectivesOf(RecordedAll(ps, 0, 0, config));
    LongestUnique(width, LongestWidth(ps), Widths(ds));
    LongestUnique(precision, LongestPrecision(ps), Precisions(ds));
  }
}
