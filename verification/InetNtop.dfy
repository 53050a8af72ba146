/**
  gnulib/inet_ntop.c: network addresses to text, and its agreement with the
  parser of gnulib/inet_pton.c.
 */
module InetNtop {
  import opened Digits
  import opened InetPton
  import opened Powers
  import opened Wrappers

  type Address = a: seq<Octet> | |a| == 16 witness Zeros(16)

  /** The address as eight 16-bit words. */
  function Words(a: Address): (w: seq<nat>)
    ensures |w| == 8 && forall i :: 0 <= i < 8 ==> w[i] == a[2 * i] as nat * 256 + a[2 * i + 1] <= 0xffff
  {
    seq(8, i requires 0 <= i < 8 => a[2 * i] as nat * 256 + a[2 * i + 1])
  }

  // ------------------------------------------------- the run that "::" stands for

  /** A run of zero words; base is -1 when there is none. */
  datatype Run = Run(base: int, len: int)

  ghost predicate IsZeroRun(w: seq<nat>, base: int, len: int) {
    0 <= base && 0 < len && base + len <= |w| && forall i :: base <= i < base + len ==> w[i] == 0
  }

  /** Either no run, or a nonempty one within eight words. */
  predicate CanHold(r: Run) {
    r.base == -1 || (0 <= r.base && 0 < r.len && r.base + r.len <= 8)
  }

  /** The run, if any, is one of zero words: whatever rule has chosen it, it can be written as "::". */
  ghost predicate Compresses(w: seq<nat>, r: Run) {
    r.base == -1 || IsZeroRun(w, r.base, r.len)
  }

  /** Section 4.2 of RFC 5952: the leftmost of the longest runs, and only if it has two words or more. */
  ghost predicate IsChosen(w: seq<nat>, r: Run) {
    if r.base == -1 then forall b, l :: IsZeroRun(w, b, l) ==> l < 2
    else && 2 <= r.len && IsZeroRun(w, r.base, r.len)
         && forall b, l :: IsZeroRun(w, b, l) ==> l < r.len || (l == r.len && r.base <= b)
  }

  lemma ChosenIsUnique(w: seq<nat>, r: Run, s: Run)
    requires IsChosen(w, r) && IsChosen(w, s)
    ensures r.base == s.base && (r.base != -1 ==> r == s)
  {
    if r.base != -1 { assert IsZeroRun(w, r.base, r.len); }
    if s.base != -1 { assert IsZeroRun(w, s.base, s.len); }
  }

  /** One word is not compressed, the longer of two runs is, and of equal ones the first. */
  lemma ChosenExamples(r: Run)
    ensures IsChosen([1, 0, 2, 3, 4, 5, 6, 7], r) ==> r.base == -1
    ensures IsChosen([1, 0, 0, 2, 0, 0, 3, 4], r) ==> r == Run(1, 2)
    ensures IsChosen([1, 0, 0, 2, 0, 0, 0, 3], r) ==> r == Run(4, 3)
  {
    hide IsChosen;
    SingleZero();
    if IsChosen([1, 0, 2, 3, 4, 5, 6, 7], r) { ChosenIsUnique([1, 0, 2, 3, 4, 5, 6, 7], r, Run(-1, 0)); }
    ChosenOf([1, 0, 0, 2, 0, 0, 3, 4], Run(1, 2));
    ChosenOf([1, 0, 0, 2, 0, 0, 0, 3], Run(4, 3));
    if IsChosen([1, 0, 0, 2, 0, 0, 3, 4], r) { ChosenIsUnique([1, 0, 0, 2, 0, 0, 3, 4], r, Run(1, 2)); }
    if IsChosen([1, 0, 0, 2, 0, 0, 0, 3], r) { ChosenIsUnique([1, 0, 0, 2, 0, 0, 0, 3], r, Run(4, 3)); }
  }

  lemma SingleZero()
    ensures IsChosen([1, 0, 2, 3, 4, 5, 6, 7], Run(-1, 0))
  {
    var w: seq<nat> := [1, 0, 2, 3, 4, 5, 6, 7];
    forall b, l | IsZeroRun(w, b, l) ensures l < 2 {
      assert w[b] == 0;
      assert w[2] != 0;
    }
  }

  /** For words that are 0 in the middle of the first and of the second half. */
  lemma ChosenOf(w: seq<nat>, r: Run)
    requires |w| == 8 && w[0] != 0 && w[3] != 0 && w[7] != 0 && w[1] == w[2] == w[4] == w[5] == 0
    requires r == if w[6] == 0 then Run(4, 3) else Run(1, 2)
    ensures IsChosen(w, r)
  {
    forall b, l | IsZeroRun(w, b, l) ensures l < r.len || (l == r.len && r.base <= b) {
      assert b != 0 && b != 3 && b != 7;
      assert b < 3 ==> b + l <= 3;
    }
  }

  /** Every run within w[..i] is beaten by `best`, or lies in the run `cur` that is still open at i. */
  ghost predicate BestBefore(w: seq<nat>, i: int, best: Run, cur: Run) {
    && 0 <= i <= |w|
    && (best.base != -1 ==> IsZeroRun(w, best.base, best.len) && best.base + best.len <= i)
    && (if cur.base != -1 then && IsZeroRun(w, cur.base, cur.len) && cur.base + cur.len == i
                               && (cur.base == 0 || w[cur.base - 1] != 0)
        else i == 0 || w[i - 1] != 0)
    && (best.base != -1 && cur.base != -1 ==> best.base < cur.base)
    && forall b, l :: IsZeroRun(w, b, l) && b + l <= i ==>
         || (cur.base != -1 && cur.base <= b)
         || (best.base != -1 && (l < best.len || (l == best.len && best.base <= b)))
  }

  /** The search loop of inet_ntop6. */
  method LongestZeroRun(words: array<nat>) returns (best: Run)
    ensures IsChosen(words[..], best)
  {
    ghost var w := words[..];
    best := Run(-1, 0);
    var cur := Run(-1, 0);
    for i := 0 to words.Length
      invariant BestBefore(w, i, best, cur)
    {
      assert w[i] == words[i];
      if words[i] == 0 {
        cur := if cur.base == -1 then Run(i, 1) else Run(cur.base, cur.len + 1);
      } else if cur.base != -1 {
        if best.base == -1 || cur.len > best.len {
          best := cur;
        }
        cur := cur.(base := -1);
      }
    }
    if cur.base != -1 {
      if best.base == -1 || cur.len > best.len {
        best := cur;
      }
    }
    if best.base != -1 && best.len < 2 {
      best := best.(base := -1);
    }
  }

  // ------------------------------------------------- the text

  function Hex(v: nat): string { Numeral(v, 16) }

  /** Words i to j of the address in hexadecimal, followed by `tail`. */
  function HexSide(a: Address, i: nat, j: nat, tail: Side): Side
    requires i <= j <= 8
    decreases j - i
  {
    if i == j then tail else Group(Hex(Words(a)[i]), HexSide(a, i + 1, j, tail))
  }

  /** An IPv4 address embedded in an IPv6 one is printed as a dotted quad. */
  predicate Encapsulated(a: Address, r: Run) {
    r.base == 0 && (r.len == 6 || (r.len == 5 && Words(a)[5] == 0xffff))
  }

  /** What is printed after "::". */
  function After(a: Address, r: Run): Side
    requires 0 <= r.base && 0 < r.len && r.base + r.len <= 8
  {
    if Encapsulated(a, r) then HexSide(a, r.len, 6, Quad(a[12..])) else HexSide(a, r.base + r.len, 8, End)
  }

  /** The printed form, with the given run written as "::". */
  function Text6(a: Address, r: Run): string
    requires CanHold(r)
  {
    if r.base == -1 then HexSide(a, 0, 8, End).Text()
    else HexSide(a, 0, r.base, End).Text() + "::" + After(a, r).Text()
  }

  // ------------------------------------------------- the parser reads the text back

  lemma HexIsGroup(v: nat)
    requires v <= 0xffff
    ensures IsGroup(Hex(v)) && Value(Hex(v), 16) == v
  {
    ValueOfNumeral(v, 16);
  }

  lemma WordOf(a: Address, i: nat, j: nat)
    requires i < j <= 8
    ensures a[2 * i..2 * j] == Word(Words(a)[i]) + a[2 * (i + 1)..2 * j]
  {
    var v := Words(a)[i];
    assert v == a[2 * i] as int * 256 + a[2 * i + 1] as int;
    assert v / 256 == a[2 * i] as int && v % 256 == a[2 * i + 1] as int;
  }

  /** The bytes a printed side stands for are the bytes of the address. */
  lemma {:induction false} HexSideBytes(a: Address, i: nat, j: nat, tail: Side)
    requires i <= j <= 8 && tail.Valid()
    ensures var x := HexSide(a, i, j, tail);
            x.Valid() && (tail.NoQuad() ==> x.NoQuad()) && x.Bytes() == a[2 * i..2 * j] + tail.Bytes()
    decreases j - i
  {
    hide Numeral, Value, Power;
    if i < j {
      var v := Words(a)[i];
      HexSideBytes(a, i + 1, j, tail);
      HexIsGroup(v);
      WordOf(a, i, j);
      assert a[2 * i..2 * j] + tail.Bytes() == Word(v) + (a[2 * (i + 1)..2 * j] + tail.Bytes());
    }
  }

  lemma ZeroRunBytes(a: Address, base: nat, len: nat)
    requires IsZeroRun(Words(a), base, len)
    ensures a[2 * base..2 * (base + len)] == Zeros(2 * len)
  {
    var z := a[2 * base..2 * (base + len)];
    forall k | 0 <= k < |z|
      ensures z[k] == 0
    {
      var i := base + k / 2;
      assert Words(a)[i] == 0;
      assert 2 * base + k == 2 * i || 2 * base + k == 2 * i + 1;
    }
  }

  lemma Cut(a: seq<Octet>, i: nat, j: nat)
    requires i <= j <= |a|
    ensures a == a[..i] + a[i..j] + a[j..]
  {}

  lemma AfterBytes(a: Address, r: Run)
    requires 0 <= r.base && 0 < r.len && r.base + r.len <= 8
    ensures After(a, r).Valid() && After(a, r).Bytes() == a[2 * (r.base + r.len)..]
  {
    hide HexSide, Dotted, Words;
    if Encapsulated(a, r) {
      HexSideBytes(a, r.len, 6, Quad(a[12..]));
      assert a[2 * r.len..12] + a[12..] == a[2 * r.len..];
    } else {
      HexSideBytes(a, r.base + r.len, 8, End);
      assert a[2 * (r.base + r.len)..16] + [] == a[2 * (r.base + r.len)..];
    }
  }

  /**
    For every address, what inet_ntop6 prints is parsed by inet_pton6 to exactly that address,
    and so it would be with any other run of zero words written as "::".
   */
  lemma RoundTrip6(a: Address, r: Run)
    requires Compresses(Words(a), r)
    ensures Parse6(Text6(a, r)) == Some(a)
  {
    hide Parse6, HexSide, After;
    if r.base == -1 {
      HexSideBytes(a, 0, 8, End);
      assert a[0..16] + [] == a;
      Pton6CompleteFull(Text6(a, r), a, HexSide(a, 0, 8, End));
    } else {
      var left, right := HexSide(a, 0, r.base, End), After(a, r);
      HexSideBytes(a, 0, r.base, End);
      AfterBytes(a, r);
      ZeroRunBytes(a, r.base, r.len);
      assert left.Bytes() == a[..2 * r.base] + [] == a[..2 * r.base];
      Cut(a, 2 * r.base, 2 * (r.base + r.len));
      Pton6CompleteGap(Text6(a, r), a, left, right);
    }
  }

  /** Distinct addresses are printed differently. */
  lemma Text6Injective(a: Address, r: Run, b: Address, s: Run)
    requires Compresses(Words(a), r) && Compresses(Words(b), s) && Text6(a, r) == Text6(b, s)
    ensures a == b
  {
    RoundTrip6(a, r);
    RoundTrip6(b, s);
  }

  // ------------------------------------------------- what the text looks like

  function WordAt(a: Address, k: nat): nat
    requires k < 8
  {
    a[2 * k] as nat * 256 + a[2 * k + 1] as nat
  }

  /** Words i to j in hexadecimal, one by one. */
  function Groups(a: Address, i: nat, j: nat): seq<string>
    requires i <= j <= 8
  {
    seq(j - i, k requires 0 <= k < j - i => Numeral(WordAt(a, i + k), 16))
  }

  function Joined(parts: seq<string>): string {
    if parts == [] then "" else if |parts| == 1 then parts[0] else parts[0] + ":" + Joined(parts[1..])
  }

  lemma {:induction false} HexSideJoined(a: Address, i: nat, j: nat)
    requires i <= j <= 8
    ensures HexSide(a, i, j, End).Text() == Joined(Groups(a, i, j))
    decreases j - i
  {
    hide Numeral;
    if i < j {
      HexSideJoined(a, i + 1, j);
      assert Words(a)[i] == WordAt(a, i);
      assert Groups(a, i, j)[1..] == Groups(a, i + 1, j);
    }
  }

  /** Ten bytes 0 and two bytes 0xff: an IPv4 address mapped into IPv6. */
  predicate IsMapped(a: Address) {
    (forall k :: 0 <= k < 10 ==> a[k] == 0) && a[10] == 0xff && a[11] == 0xff
  }

  /** Twelve bytes 0, and not one of the addresses that have two more of them. */
  predicate IsCompatible(a: Address) {
    (forall k :: 0 <= k < 12 ==> a[k] == 0) && (a[12] != 0 || a[13] != 0)
  }

  lemma WordsZero(a: Address, k: nat)
    requires k < 8
    ensures Words(a)[k] == WordAt(a, k)
    ensures WordAt(a, k) == 0 <==> a[2 * k] == 0 && a[2 * k + 1] == 0
    ensures WordAt(a, k) == 0xffff <==> a[2 * k] == 0xff && a[2 * k + 1] == 0xff
  {}

  /** The dotted form is chosen exactly for these addresses. */
  lemma EncapsulatedIs(a: Address, r: Run)
    requires IsChosen(Words(a), r)
    ensures 0 < r.len && Encapsulated(a, r) <==> IsMapped(a) || IsCompatible(a)
    ensures IsMapped(a) ==> r == Run(0, 5)
    ensures IsCompatible(a) ==> r == Run(0, 6)
  {
    hide Words;
    forall k: nat | k < 8
      ensures Words(a)[k] == WordAt(a, k) && (WordAt(a, k) == 0 <==> a[2 * k] == 0 && a[2 * k + 1] == 0)
    {
      WordsZero(a, k);
    }
    WordsZero(a, 5);
    var w := Words(a);
    if IsMapped(a) {
      MappedRun(a);
      ChosenIsUnique(w, r, Run(0, 5));
    } else if IsCompatible(a) {
      CompatibleRun(a);
      ChosenIsUnique(w, r, Run(0, 6));
    } else if 0 < r.len && Encapsulated(a, r) {
      EncapsulatedBytes(a, r);
    }
  }

  lemma MappedRun(a: Address)
    requires IsMapped(a)
    ensures IsChosen(Words(a), Run(0, 5))
  {
    forall k: nat | k < 8 ensures Words(a)[k] == 0 <==> a[2 * k] == 0 && a[2 * k + 1] == 0 { WordsZero(a, k); }
    assert Words(a)[5] != 0;
  }

  lemma CompatibleRun(a: Address)
    requires IsCompatible(a)
    ensures IsChosen(Words(a), Run(0, 6))
  {
    forall k: nat | k < 8 ensures Words(a)[k] == 0 <==> a[2 * k] == 0 && a[2 * k + 1] == 0 { WordsZero(a, k); }
    assert Words(a)[6] != 0;
  }

  lemma EncapsulatedBytes(a: Address, r: Run)
    requires IsChosen(Words(a), r) && 0 < r.len && Encapsulated(a, r)
    ensures IsMapped(a) || IsCompatible(a)
  {
    var w := Words(a);
    forall k | 0 <= k < 2 * r.len ensures a[k] == 0 {
      WordsZero(a, k / 2);
      assert w[k / 2] == 0;
    }
    WordsZero(a, 5);
    WordsZero(a, 6);
    if r.len == 6 && w[6] == 0 { assert IsZeroRun(w, 0, 7); }
  }

  /** The text of an address: which form, and how the form is written. */
  lemma Text6Means(a: Address, r: Run)
    requires IsChosen(Words(a), r)
    ensures IsMapped(a) ==> Text6(a, r) == "::ffff:" + Dotted(a[12..])
    ensures IsCompatible(a) ==> Text6(a, r) == "::" + Dotted(a[12..])
    ensures !IsMapped(a) && !IsCompatible(a) ==>
              Text6(a, r) == if r.base == -1 then Joined(Groups(a, 0, 8))
                             else Joined(Groups(a, 0, r.base)) + "::" + Joined(Groups(a, r.base + r.len, 8))
  {
    hide Dotted, IsChosen, Words, Encapsulated, IsMapped, IsCompatible, Groups, Joined;
    EncapsulatedIs(a, r);
    assert CanHold(r) by { ChosenHolds(a, r); }
    if IsMapped(a) {
      MappedText(a);
    } else if IsCompatible(a) {
      CompatibleText(a);
    } else if r.base == -1 {
      HexSideJoined(a, 0, 8);
    } else {
      HexSideJoined(a, 0, r.base);
      HexSideJoined(a, r.base + r.len, 8);
      assert 0 < r.len by { ChosenHolds(a, r); }
    }
  }

  lemma ChosenHolds(a: Address, r: Run)
    requires IsChosen(Words(a), r)
    ensures CanHold(r)
  {}

  lemma MappedText(a: Address)
    requires IsMapped(a)
    ensures Text6(a, Run(0, 5)) == "::ffff:" + Dotted(a[12..])
  {
    hide Dotted;
    WordsZero(a, 5);
    assert Words(a)[5] == 0xffff;
    assert Hex(0xffff) == "ffff" by { FourDigits(); }
    assert HexSide(a, 0, 0, End) == End;
    assert HexSide(a, 6, 6, Quad(a[12..])) == Quad(a[12..]);
    assert HexSide(a, 5, 6, Quad(a[12..])) == Group("ffff", Quad(a[12..]));
    assert After(a, Run(0, 5)).Text() == "ffff" + ":" + Dotted(a[12..]);
    assert "" + "::" + ("ffff" + ":" + Dotted(a[12..])) == "::ffff:" + Dotted(a[12..]);
  }

  lemma FourDigits()
    ensures Numeral(0xffff, 16) == "ffff"
  {
    assert Numeral(0xf, 16) == "f" && Numeral(0xff, 16) == "ff" && Numeral(0xfff, 16) == "fff";
  }

  lemma CompatibleText(a: Address)
    requires IsCompatible(a)
    ensures Text6(a, Run(0, 6)) == "::" + Dotted(a[12..])
  {
    hide Dotted;
    assert HexSide(a, 0, 0, End) == End;
    assert HexSide(a, 6, 6, Quad(a[12..])) == Quad(a[12..]);
    assert "" + "::" + Dotted(a[12..]) == "::" + Dotted(a[12..]);
  }

  /** What a numeral is written with: no leading zero, and no capital letter. */
  lemma {:induction false} NumeralLooks(n: nat, base: Base)
    ensures forall c :: c in Numeral(n, base) ==> '0' <= c <= '9' || (base == 16 && 'a' <= c <= 'f')
    ensures n > 0 ==> Numeral(n, base)[0] != '0'
    decreases n
  {
    if n >= base { NumeralLooks(n / base, base); }
  }

  lemma {:induction false} JoinedLooks(parts: seq<string>)
    requires forall p :: p in parts ==> LooksHex(p)
    ensures forall c :: c in Joined(parts) ==> '0' <= c <= '9' || 'a' <= c <= 'f' || c == ':'
    decreases |parts|
  {
    if |parts| > 0 { assert parts[0] in parts; }
    if |parts| > 1 {
      assert forall p :: p in parts[1..] ==> p in parts;
      JoinedLooks(parts[1..]);
    }
  }

  predicate LooksHex(s: string) {
    forall c :: c in s ==> '0' <= c <= '9' || 'a' <= c <= 'f'
  }

  lemma GroupsLook(a: Address, i: nat, j: nat)
    requires i <= j <= 8
    ensures forall c :: c in Joined(Groups(a, i, j)) ==> '0' <= c <= '9' || 'a' <= c <= 'f' || c == ':'
  {
    hide Numeral;
    forall p | p in Groups(a, i, j) ensures LooksHex(p) {
      var k :| 0 <= k < j - i && p == Groups(a, i, j)[k];
      NumeralLooks(WordAt(a, i + k), 16);
    }
    JoinedLooks(Groups(a, i, j));
  }

  /** A dot is written for those addresses only, and a capital letter for none. */
  lemma Text6Looks(a: Address, r: Run)
    requires IsChosen(Words(a), r)
    ensures '.' in Text6(a, r) <==> IsMapped(a) || IsCompatible(a)
    ensures forall c :: c in Text6(a, r) ==> '0' <= c <= '9' || 'a' <= c <= 'f' || c == ':' || c == '.'
  {
    hide IsMapped, IsCompatible, Text6, IsChosen, Groups, Joined, Words, Dotted;
    Text6Means(a, r);
    DottedLooks(a[12..]);
    GroupsLook(a, 0, 8);
    assert CanHold(r) by { ChosenHolds(a, r); }
    if r.base != -1 {
      GroupsLook(a, 0, r.base);
      GroupsLook(a, r.base + r.len, 8);
    }
  }

  lemma DottedLooks(b: seq<Octet>)
    requires |b| == 4
    ensures '.' in Dotted(b) && forall c :: c in Dotted(b) ==> '0' <= c <= '9' || c == '.'
  {
    hide Numeral;
    DottedQuad(b);
    forall k | 0 <= k < 4 ensures forall c :: c in Dec(b[k]) ==> '0' <= c <= '9' { NumeralLooks(b[k], 10); }
  }

  // ------------------------------------------------- the text fits the buffer

  lemma HexLength(v: nat)
    requires v <= 0xffff
    ensures |Hex(v)| <= 4
  {
    assert Power(16, 2) == 256 && Power(16, 4) == 65536;
    NumeralLength(v, 16, 4);
  }

  lemma DottedLength(b: seq<Octet>)
    requires |b| == 4
    ensures |Dotted(b)| <= 15
  {
    assert Power(10, 3) == 1000;
    forall k | 0 <= k < 4 ensures |Dec(b[k])| <= 3 { NumeralLength(b[k], 10, 3); }
    DottedQuad(b);
  }

  lemma {:induction false} HexSideLength(a: Address, i: nat, j: nat, tail: Side)
    requires i <= j <= 8
    ensures |HexSide(a, i, j, tail).Text()| <= 5 * (j - i) + |tail.Text()|
    decreases j - i
  {
    hide Numeral, Dotted;
    if i < j {
      HexLength(Words(a)[i]);
      HexSideLength(a, i + 1, j, tail);
    }
  }

  /** The text and its NUL fit the temporary, sized for "ffff:ffff:ffff:ffff:ffff:ffff:255.255.255.255". */
  lemma Text6Fits(a: Address, r: Run)
    requires CanHold(r)
    ensures |Text6(a, r)| + 1 <= 46
  {
    hide Numeral, Dotted;
    if r.base == -1 {
      HexSideLength(a, 0, 8, End);
    } else {
      HexSideLength(a, 0, r.base, End);
      if Encapsulated(a, r) {
        DottedLength(a[12..]);
        HexSideLength(a, r.len, 6, Quad(a[12..]));
      } else {
        HexSideLength(a, r.base + r.len, 8, End);
      }
    }
  }

  // ------------------------------------------------- the printing loop

  /** The text that the printing loop has emitted before word i. */
  ghost function Emitted(a: Address, r: Run, i: nat): string
    requires i <= 8 && CanHold(r)
  {
    if r.base == -1 || i <= r.base then HexSide(a, 0, i, End).Text()
    else if i <= r.base + r.len then HexSide(a, 0, r.base, End).Text() + ":"
    else HexSide(a, 0, r.base, End).Text() + "::" + HexSide(a, r.base + r.len, i, End).Text()
  }

  /** What follows the words is separated from them by a colon. */
  lemma {:induction false} HexSideSnoc(a: Address, i: nat, j: nat, tail: Side)
    requires i <= j <= 8 && tail != End
    ensures HexSide(a, i, j, tail).Text()
            == (if i == j then "" else HexSide(a, i, j, End).Text() + ":") + tail.Text()
    ensures j < 8 && tail == Group(Hex(Words(a)[j]), End) ==> HexSide(a, i, j, tail) == HexSide(a, i, j + 1, End)
    decreases j - i
  {
    hide Numeral, Dotted;
    if i < j {
      HexSideSnoc(a, i + 1, j, tail);
      var t := Hex(Words(a)[i]);
      if i + 1 < j {
        Assoc(t + ":", HexSide(a, i + 1, j, End).Text(), ":");
        Assoc(t + ":", HexSide(a, i + 1, j, End).Text() + ":", tail.Text());
      }
    }
  }

  /** One word more. */
  lemma HexSideNext(a: Address, i: nat, j: nat)
    requires i <= j < 8
    ensures HexSide(a, i, j + 1, End).Text()
            == HexSide(a, i, j, End).Text() + (if i == j then "" else ":") + Hex(Words(a)[j])
    ensures HexSide(a, i, i, End).Text() == ""
  {
    hide Numeral, Words;
    HexSideSnoc(a, i, j, Group(Hex(Words(a)[j]), End));
  }

  /** One word outside the run: a colon unless it is the first, then its digits. */
  lemma EmittedWord(a: Address, r: Run, i: nat)
    requires i < 8 && CanHold(r)
    requires r.base == -1 || !(r.base <= i < r.base + r.len)
    ensures Emitted(a, r, i + 1) == Emitted(a, r, i) + (if i == 0 then "" else ":") + Hex(Words(a)[i])
  {
    hide Numeral, Words, HexSide;
    if r.base == -1 || i < r.base {
      HexSideNext(a, 0, i);
    } else {
      HexSideNext(a, r.base + r.len, i);
    }
  }

  /** The run itself adds one colon. */
  lemma EmittedRun(a: Address, r: Run, i: nat)
    requires i < 8 && CanHold(r) && r.base != -1 && r.base <= i < r.base + r.len
    ensures Emitted(a, r, i + 1) == Emitted(a, r, i) + if i == r.base then ":" else ""
  {
    hide HexSide;
  }

  /** After the last word only the second colon of a trailing "::" is missing. */
  lemma EmittedEnd(a: Address, r: Run)
    requires CanHold(r) && !(0 < r.len && Encapsulated(a, r))
    ensures Text6(a, r) == Emitted(a, r, 8) + if r.base != -1 && r.base + r.len == 8 then ":" else ""
  {
    if r.base != -1 && r.base + r.len == 8 {
      assert After(a, r) == End;
      Assoc(HexSide(a, 0, r.base, End).Text(), ":", ":");
    }
  }

  lemma EmittedBounds(a: Address, r: Run, i: nat)
    requires i <= 8 && CanHold(r)
    ensures |Emitted(a, r, i)| <= 5 * i && Emitted(a, r, 0) == ""
  {
    hide Numeral;
    if r.base == -1 || i <= r.base {
      HexSideLength(a, 0, i, End);
    } else {
      HexSideLength(a, 0, r.base, End);
      if i > r.base + r.len { HexSideLength(a, r.base + r.len, i, End); }
    }
  }

  /** The text after the whole loop, when the last two words are printed as a quad. */
  lemma EmittedQuad(a: Address, r: Run)
    requires 0 < r.len && Encapsulated(a, r)
    ensures Text6(a, r) == Emitted(a, r, 6) + ":" + Dotted(a[12..])
    ensures |Emitted(a, r, 6)| <= 7 && |Dotted(a[12..])| <= 15
  {
    hide Numeral, Dotted;
    DottedLength(a[12..]);
    HexSideLength(a, r.len, 6, End);
    HexSideSnoc(a, r.len, 6, Quad(a[12..]));
  }

  /** sprintf and the stores through `tp`: appends `text` and a NUL to the buffer. */
  method Append(buf: array<char>, tp: nat, text: string) returns (end: nat)
    requires tp + |text| < buf.Length
    modifies buf
    ensures end == tp + |text|
    ensures buf[..end] == old(buf[..tp]) + text && buf[end] == '\0'
    ensures forall k :: end < k < buf.Length ==> buf[k] == old(buf[k])
  {
    forall k | 0 <= k < |text| { buf[tp + k] := text[k]; }
    end := tp + |text|;
    buf[end] := '\0';
  }

  /**
    inet_ntop4, writing at dst[off..].  The size check does not count the NUL,
    so the caller must have room for it whenever the text itself passes.
   */
  method InetNtop4(src: seq<Octet>, dst: array<char>, off: nat, size: nat) returns (ok: bool)
    requires |src| == 4
    requires |Dotted(src)| <= size ==> off + |Dotted(src)| < dst.Length
    modifies dst
    ensures ok <==> |Dotted(src)| <= size
    ensures !ok ==> dst[..] == old(dst[..])
    ensures ok ==> var end := off + |Dotted(src)|;
                   && dst[..end] == old(dst[..off]) + Dotted(src) && dst[end] == '\0'
                   && forall k :: end < k < dst.Length ==> dst[k] == old(dst[k])
    ensures ok && off + size <= dst.Length ==> Stored4(src, size, dst[off..off + size])
  {
    var tmp := Dec(src[0]) + "." + Dec(src[1]) + "." + Dec(src[2]) + "." + Dec(src[3]);
    DottedQuad(src);
    if |tmp| > size {
      return false;
    }
    var end := Append(dst, off, tmp);
    assert dst[off..end] == tmp;
    assert off + size <= dst.Length ==> dst[off..off + size][..|tmp|] == dst[off..end];
    ok := true;
  }

  /** The `size` characters from dst on, after a success of InetNtop4 that stores there. */
  ghost predicate Stored4(src: seq<Octet>, size: nat, window: string)
    requires |src| == 4
  {
    var n := |Dotted(src)|;
    n <= size == |window| && window[..n] == Dotted(src) && (n < size ==> window[n] == '\0')
  }

  /** A success leaves a terminated string within `size`, unless the text alone fills it. */
  lemma TerminatedUnlessFull(src: seq<Octet>, size: nat, window: string)
    requires |src| == 4 && Stored4(src, size, window)
    ensures '\0' in window <==> |Dotted(src)| != size
  {
    var n := |Dotted(src)|;
    DottedIsPrintable(src);
    if n == size {
      assert window == Dotted(src);
    } else {
      assert window[n] == '\0';
    }
  }

  lemma DottedIsPrintable(b: seq<Octet>)
    requires |b| == 4
    ensures '\0' !in Dotted(b)
  {
    hide Numeral;
    DottedQuad(b);
    forall k | 0 <= k < 4 ensures '\0' !in Dec(b[k]) { assert !IsDecimal('\0'); }
  }

  /** The shortest text in a buffer of its own length. */
  lemma ZerosAreNotTerminated(window: string)
    requires Stored4([0, 0, 0, 0], 7, window)
    ensures window == "0.0.0.0" && '\0' !in window
  {
    DottedQuad([0, 0, 0, 0]);
    assert Dec(0) == "0";
    TerminatedUnlessFull([0, 0, 0, 0], 7, window);
  }

  /** The formatting loop of inet_ntop6, into its temporary. */
  method Format6(src: Address, words: array<nat>, best: Run, tmp: array<char>) returns (tp: nat)
    requires words[..] == Words(src) && CanHold(best) && tmp.Length == 46
    modifies tmp
    ensures tp <= 45 && tmp[..tp] == Text6(src, best)
  {
    hide Numeral, Dotted, Text6, HexSide, Emitted, Words;
    EmittedBounds(src, best, 0);
    tp := 0;
    ghost var quad := false;
    for i := 0 to 8
      invariant words[..] == Words(src) && !quad
      invariant tp <= 5 * i && tmp[..tp] == Emitted(src, best, i)
      invariant i > 6 ==> !Encapsulated(src, best)
    {
      assert words[i] == Words(src)[i];
      EmittedBounds(src, best, i + 1);
      if best.base != -1 && best.base <= i < best.base + best.len {
        EmittedRun(src, best, i);
        if i == best.base {
          tp := Append(tmp, tp, ":");
        }
        continue;
      }
      EmittedWord(src, best, i);
      if i != 0 {
        tp := Append(tmp, tp, ":");
      }
      if i == 6 && best.base == 0 && (best.len == 6 || (best.len == 5 && words[5] == 0xffff)) {
        EmittedQuad(src, best);
        var ok := InetNtop4(src[12..], tmp, tp, 46 - tp);
        tp := tp + |Dotted(src[12..])|;
        quad := true;
        break;
      }
      HexLength(words[i]);
      tp := Append(tmp, tp, Hex(words[i]));
    }
    if !quad {
      EmittedEnd(src, best);
    }
    if best.base != -1 && best.base + best.len == 8 {
      tp := Append(tmp, tp, ":");
    }
  }

  /** inet_ntop6: dst receives the text and its NUL exactly when size allows both. */
  method InetNtop6(src: Address, dst: array<char>, size: nat) returns (ok: bool, ghost best: Run)
    requires size <= dst.Length
    modifies dst
    ensures IsChosen(Words(src), best)
    ensures ok <==> |Text6(src, best)| + 1 <= size
    ensures !ok ==> dst[..] == old(dst[..])
    ensures ok ==> var n := |Text6(src, best)|;
                   && dst[..n] == Text6(src, best) && dst[n] == '\0'
                   && forall k :: n < k < dst.Length ==> dst[k] == old(dst[k])
    ensures ok ==> Parse6(dst[..|Text6(src, best)|]) == Some(src)
  {
    hide Text6, Numeral, Parse6;
    var words := new nat[8];
    var i := 0;
    while i < 16
      invariant 0 <= i <= 16 && i % 2 == 0 && dst[..] == old(dst[..])
      invariant forall k :: 0 <= k < i / 2 ==> words[k] == Words(src)[k]
    {
      words[i / 2] := src[i] as nat * 256 + src[i + 1];
      i := i + 2;
    }
    assert words[..] == Words(src);
    var run := LongestZeroRun(words);
    best := run;
    var tmp := new char[46];
    var tp := Format6(src, words, run, tmp);
    if tp + 1 > size {
      return false, best;
    }
    var _ := Append(dst, 0, tmp[..tp]);
    RoundTrip6(src, best);
    ok := true;
  }
}
