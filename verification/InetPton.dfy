/**
  gnulib/inet_pton.c: text to network addresses.

  A C string is modelled by the characters before its NUL, so `i == |s|` is
  where the C code reads '\0'.  An octet is an integer below 256.
 */
module InetPton {
  import opened Digits
  import opened Powers
  import opened Wrappers

  type Octet = x: int | 0 <= x < 256


  // ---------------------------------------------------------------- IPv4

  /** The decimal text of an octet. */
  function Dec(n: Octet): string { Numeral(n, 10) }

  /** Octets in decimal, separated by dots. */
  function Dotted(b: seq<Octet>): string {
    if b == [] then ""
    else if |b| == 1 then Dec(b[0])
    else Dotted(b[..|b| - 1]) + "." + Dec(b[|b| - 1])
  }

  /** One character of inet_pton4: the octets so far, the last one open when a digit of it was seen. */
  function Next4(octets: seq<Octet>, sawDigit: bool, ch: char): Option<(seq<Octet>, bool)>
    requires sawDigit ==> octets != []
  {
    if IsDecimal(ch) then
      var d := Weight(ch);
      if sawDigit then
        var last := octets[|octets| - 1];
        if last == 0 || last * 10 + d > 255 then None
        else Some((octets[..|octets| - 1] + [last * 10 + d], true))
      else if |octets| + 1 > 4 then None
      else Some((octets + [d], true))
    else if ch == '.' && sawDigit && |octets| != 4 then Some((octets, false))
    else None
  }

  /** What the scanning loop of inet_pton4 makes of the text `rest`. */
  function Scan4(octets: seq<Octet>, sawDigit: bool, rest: string): Option<seq<Octet>>
    requires sawDigit ==> octets != []
    decreases rest
  {
    if rest == "" then
      if |octets| < 4 then None else Some(octets)
    else
      match Next4(octets, sawDigit, rest[0])
      case None => None
      case Some((o, saw)) => Scan4(o, saw, rest[1..])
  }

  function Parse4(s: string): Option<seq<Octet>> { Scan4([], false, s) }

  /** The text that brings Scan4 into a state. */
  function Read4(octets: seq<Octet>, sawDigit: bool): string {
    Dotted(octets) + if sawDigit || octets == [] then "" else "."
  }

  lemma DottedSnoc(octets: seq<Octet>, n: Octet)
    ensures Dotted(octets + [n]) == Read4(octets, false) + Dec(n)
  {
    assert (octets + [n])[..|octets|] == octets;
  }

  lemma DecSnoc(n: nat, c: char)
    requires IsDecimal(c) && 0 < n
    ensures Numeral(n * 10 + Weight(c), 10) == Numeral(n, 10) + [c]
  {
    var m := n * 10 + Weight(c);
    assert m / 10 == n && m % 10 == Weight(c);
    assert Digit(Weight(c)) == Lower(c) == c;
  }

  lemma DecDigit(c: char)
    requires IsDecimal(c)
    ensures Numeral(Weight(c), 10) == [c]
  {}

  /** Each accepted character is appended to the text read. */
  lemma Read4Next(octets: seq<Octet>, sawDigit: bool, ch: char)
    requires sawDigit ==> octets != []
    requires Next4(octets, sawDigit, ch).Some?
    ensures var (o, saw) := Next4(octets, sawDigit, ch).value;
            Read4(o, saw) == Read4(octets, sawDigit) + [ch]
  {
    hide Numeral;
    if IsDecimal(ch) && sawDigit {
      var init, last := octets[..|octets| - 1], octets[|octets| - 1];
      assert octets == init + [last];
      DottedSnoc(init, last * 10 + Weight(ch));
      DottedSnoc(init, last);
      DecSnoc(last, ch);
    } else if IsDecimal(ch) {
      DottedSnoc(octets, Weight(ch));
      DecDigit(ch);
    }
  }

  lemma {:induction false} Scan4Sound(octets: seq<Octet>, sawDigit: bool, rest: string)
    requires sawDigit ==> octets != []
    requires |octets| <= 4 && (|octets| == 4 ==> sawDigit)
    ensures var r := Scan4(octets, sawDigit, rest);
            r.Some? ==> |r.value| == 4 && Read4(octets, sawDigit) + rest == Dotted(r.value)
    decreases rest
  {
    if rest == "" {
      assert Read4(octets, sawDigit) + "" == Read4(octets, sawDigit);
    } else if Scan4(octets, sawDigit, rest).Some? {
      var (o, saw) := Next4(octets, sawDigit, rest[0]).value;
      Scan4Sound(o, saw, rest[1..]);
      Read4Next(octets, sawDigit, rest[0]);
      assert rest == [rest[0]] + rest[1..];
      Assoc(Read4(octets, sawDigit), [rest[0]], rest[1..]);
    }
  }

  /** A printed octet is read whole. */
  lemma {:induction false} Scan4Octet(octets: seq<Octet>, n: Octet, tail: string)
    requires |octets| < 4
    ensures Scan4(octets, false, Dec(n) + tail) == Scan4(octets + [n], true, tail)
    decreases n
  {
    var s := Dec(n) + tail;
    if n < 10 {
      assert s[0] == Digit(n) && s[1..] == tail;
    } else {
      var d := Digit(n % 10);
      assert s == Dec(n / 10) + ([d] + tail);
      Scan4Octet(octets, n / 10, [d] + tail);
      var o := octets + [n / 10];
      assert o[..|o| - 1] == octets && ([d] + tail)[1..] == tail;
    }
  }

  lemma Scan4Dot(octets: seq<Octet>, tail: string)
    requires 0 < |octets| < 4
    ensures Scan4(octets, true, "." + tail) == Scan4(octets, false, tail)
  {
    assert ("." + tail)[1..] == tail;
  }

  lemma {:induction false} Parse4Suffix(b: seq<Octet>, k: nat)
    requires |b| == 4 && k < 4
    ensures Scan4(b[..k], false, Suffix(b, k)) == Some(b)
    decreases 4 - k
  {
    Scan4Octet(b[..k], b[k], if k == 3 then "" else "." + Suffix(b, k + 1));
    assert b[..k] + [b[k]] == b[..k + 1];
    if k < 3 {
      Scan4Dot(b[..k + 1], Suffix(b, k + 1));
      Parse4Suffix(b, k + 1);
    } else {
      assert b[..4] == b;
    }
  }

  /** The printed text from octet k on. */
  function Suffix(b: seq<Octet>, k: nat): string
    requires |b| == 4 && k < 4
    decreases 4 - k
  {
    Dec(b[k]) + if k == 3 then "" else "." + Suffix(b, k + 1)
  }

  lemma {:induction false} ReadThenSuffix(b: seq<Octet>, k: nat)
    requires |b| == 4 && k < 4
    ensures Read4(b[..k], false) + Suffix(b, k) == Dotted(b)
    decreases 4 - k
  {
    DottedSnoc(b[..k], b[k]);
    assert b[..k] + [b[k]] == b[..k + 1];
    if k == 3 {
      assert b[..4] == b;
      assert Suffix(b, 3) == Dec(b[3]);
    } else {
      ReadThenSuffix(b, k + 1);
      Assoc(Read4(b[..k], false), Dec(b[k]), "." + Suffix(b, k + 1));
      Assoc(Dotted(b[..k + 1]), ".", Suffix(b, k + 1));
    }
  }

  lemma Assoc(a: string, b: string, c: string)
    ensures a + (b + c) == (a + b) + c
  {}

  lemma Parse4OfDotted(b: seq<Octet>)
    requires |b| == 4
    ensures Parse4(Dotted(b)) == Some(b)
  {
    ReadThenSuffix(b, 0);
    assert b[..0] == [] && "" + Suffix(b, 0) == Suffix(b, 0);
    Parse4Suffix(b, 0);
  }

  lemma DottedQuad(b: seq<Octet>)
    requires |b| == 4
    ensures Dotted(b) == Dec(b[0]) + "." + Dec(b[1]) + "." + Dec(b[2]) + "." + Dec(b[3])
  {
    assert b[..3][..2] == b[..2] && b[..2][..1] == b[..1];
    assert Dotted(b[..1]) == Dec(b[0]);
    assert Dotted(b[..2]) == Dec(b[0]) + "." + Dec(b[1]);
    assert Dotted(b[..3]) == Dec(b[0]) + "." + Dec(b[1]) + "." + Dec(b[2]);
  }

  /** The accepted dotted quads are exactly the printed ones, for strings of any length. */
  lemma Pton4AcceptsExactlyPrinted(s: string, b: seq<Octet>)
    ensures Parse4(s) == Some(b) <==> |b| == 4 && s == Dotted(b)
  {
    Scan4Sound([], false, s);
    assert Read4([], false) + s == s;
    if |b| == 4 { Parse4OfDotted(b); }
  }

  /** inet_pton4: fills dst[off..off+4] and returns 1, or leaves dst alone and returns 0. */
  method InetPton4(src: string, dst: array<Octet>, off: nat) returns (ok: int)
    requires off + 4 <= dst.Length
    modifies dst
    ensures ok == if Parse4(src).Some? then 1 else 0
    ensures ok == 0 ==> dst[..] == old(dst[..])
    ensures ok == 1 ==> |Parse4(src).value| == 4 && dst[..off + 4] == old(dst[..off]) + Parse4(src).value
    ensures forall k :: off + 4 <= k < dst.Length ==> dst[k] == old(dst[k])
  {
    var tmp := new Octet[4];
    var tp, octets, sawDigit := 0, 0, false;
    tmp[0] := 0;
    var i := 0;
    while i < |src|
      invariant 0 <= i <= |src|
      invariant 0 <= octets <= 4 && 0 <= tp < 4
      invariant if sawDigit then tp + 1 == octets else tp == octets && tmp[tp] == 0
      invariant Parse4(src) == Scan4(tmp[..octets], sawDigit, src[i..])
      invariant dst[..] == old(dst[..])
    {
      var ch := src[i];
      ghost var rest := src[i..];
      assert rest[0] == ch && rest[1..] == src[i + 1..];
      ghost var before := tmp[..octets];
      if IsDecimal(ch) {
        var next := tmp[tp] * 10 + Weight(ch);
        if sawDigit && tmp[tp] == 0 {
          return 0;
        }
        if next > 255 {
          return 0;
        }
        tmp[tp] := next;
        if !sawDigit {
          octets := octets + 1;
          if octets > 4 {
            return 0;
          }
          sawDigit := true;
          assert tmp[..octets] == before + [next];
        } else {
          assert tmp[..octets] == before[..octets - 1] + [next];
        }
      } else if ch == '.' && sawDigit {
        if octets == 4 {
          return 0;
        }
        tp := tp + 1;
        tmp[tp] := 0;
        sawDigit := false;
        assert tmp[..octets] == before;
      } else {
        return 0;
      }
      i := i + 1;
    }
    assert src[i..] == "";
    if octets < 4 {
      return 0;
    }
    forall k | 0 <= k < 4 { dst[off + k] := tmp[k]; }
    return 1;
  }

  // ---------------------------------------------------------------- IPv6

  /** A 16-bit word in network order. */
  function Word(v: nat): (w: seq<Octet>)
    requires v <= 0xffff
    ensures |w| == 2
  {
    [v / 256, v % 256]
  }

  /** A hexadecimal group: any number of digits, of value at most 0xffff. */
  ghost predicate IsGroup(t: string) {
    t != "" && IsHexText(t) && Value(t, 16) <= 0xffff
  }

  /**
    What may stand on one side of "::", or alone: hexadecimal groups, and
    perhaps a dotted quad at the end.
   */
  datatype Side = End | Quad(octets: seq<Octet>) | Group(text: string, rest: Side) {
    ghost predicate Valid() {
      match this
      case End => true
      case Quad(q) => |q| == 4
      case Group(t, r) => IsGroup(t) && r.Valid()
    }

    predicate NoQuad() {
      match this
      case End => true
      case Quad(_) => false
      case Group(_, r) => r.NoQuad()
    }

    /** The fields, separated by colons. */
    function Text(): string {
      match this
      case End => ""
      case Quad(q) => Dotted(q)
      case Group(t, r) => if r == End then t else t + ":" + r.Text()
    }

    ghost function Bytes(): seq<Octet>
      requires Valid()
    {
      match this
      case End => []
      case Quad(q) => q
      case Group(t, r) => Word(Value(t, 16)) + r.Bytes()
    }
  }

  function Zeros(n: nat): (z: seq<Octet>)
    ensures |z| == n && forall k :: 0 <= k < n ==> z[k] == 0
  {
    seq(n, _ => 0)
  }

  /** The text forms of section 2.2 of RFC 4291, without "::" and with it. */
  ghost predicate DenotesFull(s: string, b: seq<Octet>, x: Side) {
    x.Valid() && s == x.Text() && |b| == 16 && b == x.Bytes()
  }

  ghost predicate DenotesGap(s: string, b: seq<Octet>, left: Side, right: Side) {
    && left.Valid() && left.NoQuad() && right.Valid()
    && s == left.Text() + "::" + right.Text()
    && |left.Bytes()| + |right.Bytes()| < 16
    && b == left.Bytes() + Zeros(16 - |left.Bytes()| - |right.Bytes()|) + right.Bytes()
  }

  ghost predicate Denotes(s: string, b: seq<Octet>) {
    || (exists x :: DenotesFull(s, b, x))
    || (exists left, right :: DenotesGap(s, b, left, right))
  }

  /** The loop's result: the bytes written and where "::" stood among them. */
  datatype Scanned = Scanned(bytes: seq<Octet>, gap: Option<nat>)

  datatype Step = Reject | Stop(r: Scanned) | Go(out: seq<Octet>, gap: Option<nat>, tok: string)

  /**
    One turn of the scanning loop of inet_pton6, with the flush after it;
    `tok` is the hexadecimal text since the last colon.
   */
  function Step6(out: seq<Octet>, gap: Option<nat>, tok: string, rest: string): (s: Step)
    requires IsHexText(tok) && Value(tok, 16) <= 0xffff
    ensures s.Go? ==> rest != "" && IsHexText(s.tok) && Value(s.tok, 16) <= 0xffff
  {
    if rest == "" then
      if tok == "" then Stop(Scanned(out, gap))
      else if |out| + 2 > 16 then Reject
      else Stop(Scanned(out + Word(Value(tok, 16)), gap))
    else if IsHex(rest[0]) then
      if Value(tok + [rest[0]], 16) > 0xffff then Reject else Go(out, gap, tok + [rest[0]])
    else if rest[0] == ':' then
      if tok == "" then
        if gap.Some? then Reject else Go(out, Some(|out|), "")
      else if rest[1..] == "" || |out| + 2 > 16 then Reject
      else Go(out + Word(Value(tok, 16)), gap, "")
    else if rest[0] == '.' && |out| + 4 <= 16 && Parse4(tok + rest).Some? then
      Stop(Scanned(out + Parse4(tok + rest).value, gap))
    else Reject
  }

  function Scan6(out: seq<Octet>, gap: Option<nat>, tok: string, rest: string): Option<Scanned>
    requires IsHexText(tok) && Value(tok, 16) <= 0xffff
    decreases rest
  {
    match Step6(out, gap, tok, rest)
    case Reject => None
    case Stop(r) => Some(r)
    case Go(o, g, t) => Scan6(o, g, t, rest[1..])
  }

  lemma Scan6Step(out: seq<Octet>, gap: Option<nat>, tok: string, rest: string)
    requires IsHexText(tok) && Value(tok, 16) <= 0xffff
    ensures Scan6(out, gap, tok, rest)
            == match Step6(out, gap, tok, rest)
               case Reject => None
               case Stop(r) => Some(r)
               case Go(o, g, t) => Scan6(o, g, t, rest[1..])
  {}

  function Expand(r: Scanned): Option<seq<Octet>> {
    match r.gap
    case None => if |r.bytes| == 16 then Some(r.bytes) else None
    case Some(k) =>
      if k <= |r.bytes| < 16 then Some(r.bytes[..k] + Zeros(16 - |r.bytes|) + r.bytes[k..])
      else None
  }

  /** A leading "::" loses its first colon; any other leading colon is refused. */
  function Strip(s: string): Option<string> {
    if s == "" || s[0] != ':' then Some(s)
    else if |s| == 1 || s[1] != ':' then None
    else Some(s[1..])
  }

  function Parse6(s: string): Option<seq<Octet>> {
    match Strip(s)
    case None => None
    case Some(t) =>
      match Scan6([], None, "", t)
      case None => None
      case Some(r) => Expand(r)
  }

  // Soundness: an accepted text has one of the two forms.

  /** The groups, each followed by a colon. */
  function Terminated(x: Side): string {
    match x
    case Group(t, r) => t + ":" + Terminated(r)
    case _ => ""
  }

  lemma {:induction false} TerminatedText(x: Side)
    requires x.NoQuad() && x != End
    ensures Terminated(x) == x.Text() + ":"
  {
    if x.rest != End {
      TerminatedText(x.rest);
      Assoc(x.text + ":", x.rest.Text(), ":");
    }
  }

  lemma TerminatedCons(t: string, x: Side, text: string)
    ensures Terminated(Group(t, x)) + ":" + text == t + ":" + (Terminated(x) + ":" + text)
  {
    Assoc(t + ":", Terminated(x), ":");
    Assoc(t + ":", Terminated(x) + ":", text);
  }

  /** Scanning `text` from (out, gap) gave r, by reading `left`, "::" and `right`, or only `right`. */
  ghost predicate Reads(out: seq<Octet>, gap: Option<nat>, text: string, r: Scanned, left: Side, right: Side) {
    && left.Valid() && left.NoQuad() && right.Valid()
    && r.bytes == out + left.Bytes() + right.Bytes()
    && if r.gap == gap then left == End && text == right.Text()
       else && gap.None? && r.gap == Some(|out| + |left.Bytes()|)
            && text == Terminated(left) + ":" + right.Text()
  }

  lemma ReadsGap(out: seq<Octet>, text: string, r: Scanned, right: Side)
    requires Reads(out, Some(|out|), text, r, End, right)
    ensures Reads(out, None, ":" + text, r, End, right)
  {
    assert "" + ":" == ":";
  }

  lemma ReadsGroup(out: seq<Octet>, gap: Option<nat>, t: string, text: string, r: Scanned, left: Side, right: Side)
    returns (left': Side, right': Side)
    requires IsGroup(t) && text != ""
    requires Reads(out + Word(Value(t, 16)), gap, text, r, left, right)
    ensures Reads(out, gap, t + ":" + text, r, left', right')
  {
    if r.gap == gap {
      left', right' := End, Group(t, right);
      assert r.bytes == out + [] + (Word(Value(t, 16)) + right.Bytes());
    } else {
      left', right' := Group(t, left), right;
      assert r.bytes == out + (Word(Value(t, 16)) + left.Bytes()) + right.Bytes();
      TerminatedCons(t, left, right.Text());
    }
  }

  lemma {:induction false} Scan6Sound(out: seq<Octet>, gap: Option<nat>, tok: string, rest: string)
    returns (left: Side, right: Side)
    requires IsHexText(tok) && Value(tok, 16) <= 0xffff && |out| <= 16
    requires Scan6(out, gap, tok, rest).Some?
    ensures |Scan6(out, gap, tok, rest).value.bytes| <= 16
    ensures Reads(out, gap, tok + rest, Scan6(out, gap, tok, rest).value, left, right)
    decreases rest
  {
    var r := Scan6(out, gap, tok, rest).value;
    left, right := End, if tok == "" then End else Group(tok, End);
    assert tok + "" == tok;
    if rest != "" {
      var c, tail := rest[0], rest[1..];
      assert rest == [c] + tail && "" + tail == tail;
      if IsHex(c) {
        Assoc(tok, [c], tail);
        left, right := Scan6Sound(out, gap, tok + [c], tail);
      } else if c == ':' && tok == "" {
        left, right := Scan6Sound(out, Some(|out|), "", tail);
        ReadsGap(out, tail, r, right);
        assert tok + rest == ":" + tail;
      } else if c == ':' {
        left, right := Scan6Sound(out + Word(Value(tok, 16)), gap, "", tail);
        left, right := ReadsGroup(out, gap, tok, tail, r, left, right);
        Assoc(tok, ":", tail);
      } else {
        Pton4AcceptsExactlyPrinted(tok + rest, Parse4(tok + rest).value);
        left, right := End, Quad(Parse4(tok + rest).value);
      }
    }
  }

  lemma NoLeadingColon(x: Side)
    requires x.Valid()
    ensures x.Text() == "" <==> x == End
    ensures x.Text() != "" ==> x.Text()[0] != ':'
  {
    match x
    case End =>
    case Quad(q) => DottedQuad(q); assert Dec(q[0])[0] in Dec(q[0]);
    case Group(t, r) => assert t[0] in t; assert IsHex(t[0]);
  }

  lemma StripText(s: string, x: Side)
    requires x.Valid()
    ensures Strip(s) == Some(x.Text()) <==> s == x.Text()
  {
    NoLeadingColon(x);
  }

  lemma StripGap(s: string, left: Side, text: string)
    requires left.Valid() && left.NoQuad()
    ensures Strip(s) == Some(Terminated(left) + ":" + text) <==> s == left.Text() + "::" + text
  {
    NoLeadingColon(left);
    var t := Terminated(left) + ":" + text;
    if left == End {
      assert t == ":" + text && ("" + "::" + text)[1..] == t;
      assert s != "" ==> s == [s[0]] + s[1..];
      assert "" + "::" + text == ":" + t;
    } else {
      TerminatedText(left);
      Assoc(left.Text(), ":", ":" + text);
      assert t == left.Text() + "::" + text;
      assert t[0] == left.Text()[0];
    }
  }

  lemma ExpandSplit(a: seq<Octet>, b: seq<Octet>)
    ensures Expand(Scanned(a + b, Some(|a|)))
            == if |a| + |b| < 16 then Some(a + Zeros(16 - |a| - |b|) + b) else None
  {
    assert (a + b)[..|a|] == a && (a + b)[|a|..] == b;
  }

  lemma Pton6Sound(s: string)
    requires Parse6(s).Some?
    ensures Denotes(s, Parse6(s).value)
  {
    hide Scan6, Dotted, Terminated;
    var t := Strip(s).value;
    var left, right := Scan6Sound([], None, "", t);
    assert "" + t == t;
    var r, b := Scan6([], None, "", t).value, Parse6(s).value;
    assert r.bytes == left.Bytes() + right.Bytes();
    if r.gap.None? {
      StripText(s, right);
      assert DenotesFull(s, b, right);
    } else {
      StripGap(s, left, right.Text());
      ExpandSplit(left.Bytes(), right.Bytes());
      assert DenotesGap(s, b, left, right);
    }
  }

  // Completeness: every text of those forms is accepted, with its bytes.

  lemma {:induction false} Scan6Token(out: seq<Octet>, gap: Option<nat>, tok: string, t: string, tail: string)
    requires IsHexText(tok + t) && Value(tok + t, 16) <= 0xffff
    requires IsHexText(tok) && Value(tok, 16) <= 0xffff
    ensures Scan6(out, gap, tok, t + tail) == Scan6(out, gap, tok + t, tail)
    decreases t
  {
    if t == "" {
      assert t + tail == tail && tok + t == tok;
    } else {
      var c := t[0];
      assert (tok + t)[|tok|] == c;
      assert tok + [c] + t[1..] == tok + t;
      HexPrefix(tok + [c], t[1..]);
      assert (t + tail)[0] == c && (t + tail)[1..] == t[1..] + tail;
      Scan6Token(out, gap, tok + [c], t[1..], tail);
    }
  }

  /** Reading on never lowers the value, so the running check decides the final one. */
  lemma {:induction false} HexPrefix(p: string, q: string)
    requires IsHexText(p + q)
    ensures IsHexText(p) && Value(p, 16) <= Value(p + q, 16)
    decreases |q|
  {
    forall c | c in p ensures IsHex(c) {
      assert c in p + q;
    }
    if q == "" {
      assert p + q == p;
    } else {
      var s, n := p + q, |p + q| - 1;
      assert s[..n] == p + q[..|q| - 1];
      assert forall c :: c in s[..n] ==> c in s;
      HexPrefix(p, q[..|q| - 1]);
    }
  }

  lemma {:induction false} ShortHexIsSmall(t: string)
    requires IsHexText(t)
    ensures Value(t, 16) < Power(16, |t|)
  {
    if t != "" {
      var init := t[..|t| - 1];
      assert forall c :: c in init ==> c in t;
      ShortHexIsSmall(init);
      assert t[|t| - 1] in t;
    }
  }

  /** The decimal digits of an octet, read in hexadecimal, stay a legal group value. */
  lemma OctetAsHex(n: Octet)
    ensures IsHexText(Dec(n)) && Value(Dec(n), 16) <= 0xffff
  {
    assert Power(10, 3) == 1000 && Power(16, 3) == 4096 && Power(16, 2) == 256 && Power(16, 1) == 16;
    NumeralLength(n, 10, 3);
    ShortHexIsSmall(Dec(n));
  }

  lemma Scan6Quad(out: seq<Octet>, gap: Option<nat>, quad: seq<Octet>)
    requires |quad| == 4 && |out| + 4 <= 16
    ensures Scan6(out, gap, "", Dotted(quad)) == Some(Scanned(out + quad, gap))
  {
    var t, tail := DottedSplit(quad);
    OctetAsHex(quad[0]);
    hide Dotted, Numeral, Scan4;
    Pton4AcceptsExactlyPrinted(t + tail, quad);
    assert "" + t == t;
    Scan6Token(out, gap, "", t, tail);
    Scan6Step(out, gap, t, tail);
  }

  lemma DottedSplit(b: seq<Octet>) returns (t: string, tail: string)
    requires |b| == 4
    ensures t == Dec(b[0]) && Dotted(b) == t + tail && tail != "" && tail[0] == '.'
  {
    DottedQuad(b);
    t, tail := Dec(b[0]), "." + Dec(b[1]) + "." + Dec(b[2]) + "." + Dec(b[3]);
  }

  /** A group and its colon are read whole. */
  lemma Scan6Group(out: seq<Octet>, gap: Option<nat>, t: string, text: string)
    requires IsGroup(t) && text != "" && |out| + 2 <= 16
    ensures Scan6(out, gap, "", t + ":" + text) == Scan6(out + Word(Value(t, 16)), gap, "", text)
  {
    assert "" + t == t;
    Scan6Token(out, gap, "", t, ":" + text);
    Assoc(t, ":", text);
    assert (":" + text)[1..] == text;
  }

  lemma Scan6LastGroup(out: seq<Octet>, gap: Option<nat>, t: string)
    requires IsGroup(t) && |out| + 2 <= 16
    ensures Scan6(out, gap, "", t) == Some(Scanned(out + Word(Value(t, 16)), gap))
  {
    assert t + "" == t && "" + t == t;
    Scan6Token(out, gap, "", t, "");
  }

  lemma {:induction false} Scan6Side(out: seq<Octet>, gap: Option<nat>, x: Side)
    requires x.Valid() && |out| + |x.Bytes()| <= 16
    ensures Scan6(out, gap, "", x.Text()) == Some(Scanned(out + x.Bytes(), gap))
    decreases x
  {
    match x
    case End => assert out + [] == out;
    case Quad(q) => Scan6Quad(out, gap, q);
    case Group(t, r) =>
      var w := Word(Value(t, 16));
      assert out + x.Bytes() == (out + w) + r.Bytes();
      if r == End {
        Scan6LastGroup(out, gap, t);
        assert r.Bytes() == [] && out + (w + []) == out + w;
      } else {
        NoLeadingColon(r);
        Scan6Group(out, gap, t, r.Text());
        Scan6Side(out + w, gap, r);
      }
  }

  /** The groups before "::" are read one by one, so only what follows them is left to scan. */
  lemma {:induction false} Scan6Left(out: seq<Octet>, left: Side, text: string)
    requires left.Valid() && left.NoQuad() && |out| + |left.Bytes()| <= 16
    ensures Scan6(out, None, "", Terminated(left) + ":" + text) == Scan6(out + left.Bytes(), None, "", ":" + text)
    decreases left
  {
    hide Scan6;
    if left == End {
      assert out + [] == out && "" + ":" == ":";
    } else {
      var w, t := Word(Value(left.text, 16)), Terminated(left.rest) + ":" + text;
      TerminatedCons(left.text, left.rest, text);
      Scan6Group(out, None, left.text, t);
      Scan6Left(out + w, left.rest, text);
      assert out + w + left.rest.Bytes() == out + left.Bytes();
    }
  }

  lemma Scan6Gap(out: seq<Octet>, right: Side)
    requires right.Valid() && |out| + |right.Bytes()| <= 16
    ensures Scan6(out, None, "", ":" + right.Text()) == Some(Scanned(out + right.Bytes(), Some(|out|)))
  {
    var s := ":" + right.Text();
    assert s[0] == ':' && s[1..] == right.Text();
    Scan6Side(out, Some(|out|), right);
  }

  lemma Pton6CompleteFull(s: string, b: seq<Octet>, x: Side)
    requires DenotesFull(s, b, x)
    ensures Parse6(s) == Some(b)
  {
    hide Scan6, Dotted;
    StripText(s, x);
    Scan6Side([], None, x);
    assert [] + x.Bytes() == b;
  }

  lemma Pton6CompleteGap(s: string, b: seq<Octet>, left: Side, right: Side)
    requires DenotesGap(s, b, left, right)
    ensures Parse6(s) == Some(b)
  {
    hide Scan6, Terminated, Dotted;
    StripGap(s, left, right.Text());
    Scan6Left([], left, right.Text());
    assert [] + left.Bytes() == left.Bytes();
    Scan6Gap(left.Bytes(), right);
    ExpandSplit(left.Bytes(), right.Bytes());
  }

  /** "::" must stand for something: between sides that already denote 16 bytes it is refused. */
  lemma FullGapRefused(left: Side, right: Side)
    requires left.Valid() && left.NoQuad() && right.Valid() && |left.Bytes()| + |right.Bytes()| == 16
    ensures Parse6(left.Text() + "::" + right.Text()) == None
  {
    hide Scan6, Terminated, Dotted;
    StripGap(left.Text() + "::" + right.Text(), left, right.Text());
    Scan6Left([], left, right.Text());
    assert [] + left.Bytes() == left.Bytes();
    Scan6Gap(left.Bytes(), right);
    ExpandSplit(left.Bytes(), right.Bytes());
  }

  lemma OneDigit(c: char)
    requires IsHex(c)
    ensures IsGroup([c]) && Value([c], 16) == Weight(c)
  {
    assert [c][..0] == "";
    ValueSnoc("", c, 16);
  }

  lemma EightGroupsAndGap()
    ensures Parse6("1:2:3:4::5:6:7:8") == None
  {
    hide Parse6, Value;
    var left := Group("1", Group("2", Group("3", Group("4", End))));
    var right := Group("5", Group("6", Group("7", Group("8", End))));
    forall c | '1' <= c <= '8' ensures IsGroup([c]) { OneDigit(c); }
    assert left.Text() == "1:2:3:4" && right.Text() == "5:6:7:8";
    assert left.Text() + "::" + right.Text() == "1:2:3:4::5:6:7:8";
    FullGapRefused(left, right);
  }

  /** inet_pton6 accepts exactly the texts of section 2.2 of RFC 4291, with their bytes. */
  lemma Pton6AcceptsExactlyDenoted(s: string, b: seq<Octet>)
    ensures Parse6(s) == Some(b) <==> Denotes(s, b)
  {
    if Parse6(s) == Some(b) { Pton6Sound(s); }
    if x :| DenotesFull(s, b, x) { Pton6CompleteFull(s, b, x); }
    if left, right :| DenotesGap(s, b, left, right) { Pton6CompleteGap(s, b, left, right); }
  }

  /** A group is two bytes, the high one first, and "::" is as many zeros as are missing. */
  lemma TextExamples()
    ensures Parse6("1::2") == Some([0, 1] + Zeros(12) + [0, 2])
    ensures Dotted([1, 2, 3, 4]) == "1.2.3.4"
  {
    hide Parse6, Value, Zeros;
    var left, right := Group("1", End), Group("2", End);
    OneDigit('1');
    OneDigit('2');
    assert left.Bytes() == [0, 1] && right.Bytes() == [0, 2];
    assert left.Text() + "::" + right.Text() == "1::2";
    Pton6CompleteGap("1::2", [0, 1] + Zeros(12) + [0, 2], left, right);
    DottedQuad([1, 2, 3, 4]);
  }

  function GapAt(colonp: int): Option<nat> { if colonp < 0 then None else Some(colonp) }

  // The turns of Scan6 by position: src[curtok..i] is the open group, src[i..] is unread.

  ghost predicate IsOpen(src: string, curtok: nat, i: nat) {
    curtok <= i <= |src| && IsHexText(src[curtok..i]) && Value(src[curtok..i], 16) <= 0xffff
  }

  ghost function OpenValue(src: string, curtok: nat, i: nat): nat
    requires IsOpen(src, curtok, i)
  {
    Value(src[curtok..i], 16)
  }

  ghost function ScanAt(src: string, curtok: nat, i: nat, out: seq<Octet>, gap: Option<nat>): Option<Scanned>
    requires IsOpen(src, curtok, i)
  {
    Scan6(out, gap, src[curtok..i], src[i..])
  }

  lemma AtStart(src: string, i: nat)
    requires i <= |src|
    ensures IsOpen(src, i, i) && OpenValue(src, i, i) == 0
    ensures ScanAt(src, i, i, [], None) == Scan6([], None, "", src[i..])
  {
    assert src[i..i] == "";
  }

  lemma AtHex(src: string, curtok: nat, i: nat, out: seq<Octet>, gap: Option<nat>)
    requires IsOpen(src, curtok, i) && i < |src| && IsHex(src[i])
    ensures var val := OpenValue(src, curtok, i) * 16 + Weight(src[i]);
            if val > 0xffff then ScanAt(src, curtok, i, out, gap) == None
            else && IsOpen(src, curtok, i + 1) && OpenValue(src, curtok, i + 1) == val
                 && ScanAt(src, curtok, i, out, gap) == ScanAt(src, curtok, i + 1, out, gap)
  {
    var tok, rest := src[curtok..i], src[i..];
    assert src[curtok..i + 1] == tok + [rest[0]] && rest[1..] == src[i + 1..];
    assert (tok + [rest[0]])[..|tok|] == tok;
  }

  lemma AtColon(src: string, curtok: nat, i: nat, out: seq<Octet>, gap: Option<nat>)
    requires IsOpen(src, curtok, i) && i < |src| && src[i] == ':'
    ensures IsOpen(src, i + 1, i + 1) && OpenValue(src, i + 1, i + 1) == 0
    ensures curtok == i ==> OpenValue(src, curtok, i) == 0
    ensures curtok == i && gap.Some? ==> ScanAt(src, curtok, i, out, gap) == None
    ensures curtok == i && gap.None? ==>
              ScanAt(src, curtok, i, out, gap) == ScanAt(src, i + 1, i + 1, out, Some(|out|))
    ensures curtok < i && (i + 1 == |src| || |out| + 2 > 16) ==> ScanAt(src, curtok, i, out, gap) == None
    ensures curtok < i && i + 1 < |src| && |out| + 2 <= 16 ==>
              ScanAt(src, curtok, i, out, gap)
              == ScanAt(src, i + 1, i + 1, out + Word(OpenValue(src, curtok, i)), gap)
  {
    assert src[i..][1..] == src[i + 1..] && src[i + 1..i + 1] == "";
  }

  lemma AtOther(src: string, curtok: nat, i: nat, out: seq<Octet>, gap: Option<nat>)
    requires IsOpen(src, curtok, i) && i < |src| && !IsHex(src[i]) && src[i] != ':'
    ensures ScanAt(src, curtok, i, out, gap)
            == if src[i] == '.' && |out| + 4 <= 16 && Parse4(src[curtok..]).Some?
               then Some(Scanned(out + Parse4(src[curtok..]).value, gap)) else None
  {
    assert src[curtok..i] + src[i..] == src[curtok..];
  }

  lemma AtEnd(src: string, curtok: nat, out: seq<Octet>, gap: Option<nat>)
    requires IsOpen(src, curtok, |src|)
    ensures ScanAt(src, curtok, |src|, out, gap)
            == if curtok == |src| then Some(Scanned(out, gap))
               else if |out| + 2 > 16 then None
               else Some(Scanned(out + Word(OpenValue(src, curtok, |src|)), gap))
  {
    assert src[|src|..] == "";
  }

  /** The 16-byte buffer, still zero after the bytes written so far. */
  ghost function Padded(out: seq<Octet>): (b: seq<Octet>)
    requires |out| <= 16
    ensures |b| == 16
  {
    out + Zeros(16 - |out|)
  }

  /** Stores the two octets of a finished group. */
  method PutWord(tmp: array<Octet>, tp: nat, val: nat, ghost out: seq<Octet>)
    requires tp == |out| && tp + 2 <= 16 && val <= 0xffff && tmp[..] == Padded(out)
    modifies tmp
    ensures tmp[..] == Padded(out + Word(val))
  {
    tmp[tp], tmp[tp + 1] := val / 256, val % 256;
    assert tmp[..tp] == out;
  }

  /** Stores the four octets of a final dotted quad, if `text` is one. */
  method PutQuad(text: string, tmp: array<Octet>, tp: nat, ghost out: seq<Octet>) returns (four: int)
    requires tp == |out| && tp + 4 <= 16 && tmp[..] == Padded(out)
    modifies tmp
    ensures four == if Parse4(text).Some? then 1 else 0
    ensures four == 1 ==> |Parse4(text).value| == 4 && tmp[..] == Padded(out + Parse4(text).value)
  {
    four := InetPton4(text, tmp, tp);
    assert old(tmp[..tp]) == out;
  }

  /**
    The shift of inet_pton6, done byte by byte within the buffer: the bytes
    read after "::" move to the end, and zeros fill the gap.
   */
  method ShiftToEnd(tmp: array<Octet>, colonp: nat, tp: nat, ghost out: seq<Octet>)
    requires colonp <= tp == |out| < 16 && tmp[..] == Padded(out)
    modifies tmp
    ensures tmp[..] == out[..colonp] + Zeros(16 - tp) + out[colonp..]
  {
    var n, endp := tp - colonp, 16;
    ghost var d := endp - tp;
    for i := 1 to n + 1
      invariant forall k :: 0 <= k <= tp - i ==> tmp[k] == out[k]
      invariant forall k :: tp - i < k <= endp - i ==> tmp[k] == 0
      invariant forall k :: endp - i < k < endp ==> tmp[k] == out[k - d]
    {
      tmp[endp - i] := tmp[colonp + n - i];
      tmp[colonp + n - i] := 0;
    }
  }

  /**
    The scanning loop of inet_pton6 and the flush after it, from src[start..]:
    what is in tmp, up to tp, and colonp are what Scan6 says.
   */
  method ScanInto(src: string, start: nat, tmp: array<Octet>)
    returns (ok: bool, tp: nat, colonp: int)
    requires start <= |src| && tmp[..] == Padded([])
    modifies tmp
    ensures ok == Scan6([], None, "", src[start..]).Some?
    ensures ok ==> var r := Scan6([], None, "", src[start..]).value;
                   && tp == |r.bytes| <= 16 && -1 <= colonp <= tp
                   && GapAt(colonp) == r.gap && tmp[..] == Padded(r.bytes)
  {
    hide Scan6, Word, Parse4, Padded, IsHex, Lower, Weight, IsOpen, OpenValue, ScanAt;
    ok, tp, colonp := false, 0, -1;
    var endp, i, curtok, sawXdigit, val := 16, start, start, false, 0;
    ghost var out: seq<Octet>, gap: Option<nat> := [], None;
    AtStart(src, i);
    ghost var result := ScanAt(src, curtok, i, [], None);
    while i < |src|
      invariant start <= curtok <= i <= |src| && 0 <= tp == |out| <= 16 && -1 <= colonp <= tp
      invariant sawXdigit <==> curtok < i
      invariant tmp[..] == Padded(out) && gap == GapAt(colonp)
      invariant IsOpen(src, curtok, i) && val == OpenValue(src, curtok, i) <= 0xffff
      invariant result == ScanAt(src, curtok, i, out, gap)
    {
      LowerKeeps(src[i]);
      var ch := Lower(src[i]);
      i := i + 1;
      if IsHex(ch) {
        AtHex(src, curtok, i - 1, out, gap);
        val := val * 16 + Weight(ch);
        if val > 0xffff {
          return;
        }
        sawXdigit := true;
      } else if ch == ':' {
        AtColon(src, curtok, i - 1, out, gap);
        curtok := i;
        if !sawXdigit {
          if colonp >= 0 {
            return;
          }
          colonp, gap := tp, Some(|out|);
        } else if i == |src| || tp + 2 > endp {
          return;
        } else {
          PutWord(tmp, tp, val, out);
          out := out + Word(val);
          tp, sawXdigit, val := tp + 2, false, 0;
        }
      } else {
        AtOther(src, curtok, i - 1, out, gap);
        if ch == '.' && tp + 4 <= endp {
          var four := PutQuad(src[curtok..], tmp, tp, out);
          if four > 0 {
            ok, tp := true, tp + 4;
          }
        }
        return;
      }
    }
    AtEnd(src, curtok, out, gap);
    if sawXdigit {
      if tp + 2 > endp {
        return;
      }
      PutWord(tmp, tp, val, out);
      tp := tp + 2;
    }
    ok := true;
  }

  /** inet_pton6: fills the 16 octets of dst and returns 1, or leaves dst alone and returns 0. */
  method InetPton6(src: string, dst: array<Octet>) returns (r: int)
    requires 16 <= dst.Length
    modifies dst
    ensures r == if Parse6(src).Some? then 1 else 0
    ensures r == 0 ==> dst[..] == old(dst[..])
    ensures r == 1 ==> |Parse6(src).value| == 16 && dst[..] == Parse6(src).value + old(dst[16..])
  {
    hide Scan6;
    var tmp, endp := new Octet[16](_ => 0), 16;
    var i := 0;
    if i < |src| && src[i] == ':' {
      i := i + 1;
      if i == |src| || src[i] != ':' {
        return 0;
      }
    }
    assert src[i..] == Strip(src).value && tmp[..] == Padded([]);
    var ok, tp, colonp := ScanInto(src, i, tmp);
    if !ok {
      return 0;
    }
    if colonp >= 0 {
      if tp == endp {
        return 0;
      }
      ShiftToEnd(tmp, colonp, tp, Scan6([], None, "", src[i..]).value.bytes);
      tp := endp;
    }
    if tp != endp {
      return 0;
    }
    assert tmp[..] == Parse6(src).value;
    forall k | 0 <= k < 16 { dst[k] := tmp[k]; }
    r := 1;
  }
}
