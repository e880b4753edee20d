/**
 res-print-engine.c: sprint_addr6 appends an IPv6 address to a string, the first run of zero groups
 written as "::". The parser is that of section 2.2 of RFC 4291, forms 1 and 2.
 */
module AddrPrint {
  import opened Bytes

  /** uip_ipaddr_t */
  type Addr = a: seq<Byte> | |a| == 16 witness seq(16, _ => 0)

  /** The eight 16-bit groups. */
  type Groups = g: seq<U16> | |g| == 8 witness seq(8, _ => 0)

  function GroupsOf(a: Addr): Groups {
    seq(8, i requires 0 <= i < 8 => a[2 * i] as int * 256 + a[2 * i + 1] as int)
  }

  function AddrFrom(g: Groups): Addr {
    seq(16, i requires 0 <= i < 16 => if i % 2 == 0 then g[i / 2] / 256 else g[i / 2] % 256)
  }

  lemma AddrOfGroups(a: Addr)
    ensures AddrFrom(GroupsOf(a)) == a
  {
    forall i | 0 <= i < 16 ensures AddrFrom(GroupsOf(a))[i] == a[i] {
      var j := i / 2;
      assert GroupsOf(a)[j] == a[2 * j] as int * 256 + a[2 * j + 1] as int;
    }
  }

  // ---------------------------------------------------------------- hexadecimal fields

  function Digit(d: nat): char
    requires d < 16
  {
    if d < 10 then '0' + d as char else 'a' + (d - 10) as char
  }

  /** "%x" */
  function Hex(n: nat): (s: string)
    ensures |s| >= 1
  {
    if n < 16 then [Digit(n)] else Hex(n / 16) + [Digit(n % 16)]
  }

  function DigitValue(c: char): Option<nat> {
    if '0' <= c <= '9' then Some((c - '0') as nat)
    else if 'a' <= c <= 'f' then Some((c - 'a') as nat + 10)
    else if 'A' <= c <= 'F' then Some((c - 'A') as nat + 10)
    else None
  }

  function HexValue(s: string): Option<nat> {
    if s == [] then Some(0)
    else
      var n := |s| - 1;
      match (HexValue(s[..n]), DigitValue(s[n]))
      case (Some(v), Some(d)) => Some(16 * v + d)
      case _ => None
  }

  /** One to four hexadecimal digits. */
  function ParseField(s: string): Option<nat> {
    if 1 <= |s| <= 4 then HexValue(s) else None
  }

  ghost predicate NoColon(s: string) {
    forall i :: 0 <= i < |s| ==> s[i] != ':'
  }

  lemma DigitReads(d: nat)
    requires d < 16
    ensures DigitValue(Digit(d)) == Some(d) && Digit(d) != ':' && Digit(d) != '\0'
  {
  }

  lemma {:induction false} HexReads(n: nat)
    ensures HexValue(Hex(n)) == Some(n) && NoColon(Hex(n)) && forall i :: 0 <= i < |Hex(n)| ==> Hex(n)[i] != '\0'
  {
    DigitReads(n % 16);
    if n >= 16 {
      HexReads(n / 16);
      assert Hex(n)[..|Hex(n)| - 1] == Hex(n / 16);
    } else {
      assert Hex(n)[..0] == [];
    }
  }

  lemma HexIsShort(n: nat)
    requires n < 0x1_0000
    ensures |Hex(n)| <= 4
  {
    var (a, b, c) := (n / 16, n / 16 / 16, n / 16 / 16 / 16);
    assert a < 4096 && b < 256 && c < 16;
    assert |Hex(c)| == 1;
    assert |Hex(b)| <= 2;
    assert |Hex(a)| <= 3;
  }

  lemma FieldRoundTrip(n: nat)
    requires n < 0x1_0000
    ensures ParseField(Hex(n)) == Some(n)
  {
    HexReads(n);
    HexIsShort(n);
  }

  // ---------------------------------------------------------------- the printer

  /** The loop of sprint_addr6 from group i on, with its counter f: zero groups seen so far while
      a run may still be shortened, -1 after the shortened run. */
  function PrintFrom(g: Groups, i: nat, f: int, text: string): string
    requires i <= |g|
    decreases |g| - i
  {
    if i == |g| then text
    else if g[i] == 0 && f >= 0 then PrintFrom(g, i + 1, f + 1, if f == 0 then text + "::" else text)
    else
      var sep := if f > 0 then "" else if i > 0 then ":" else "";
      PrintFrom(g, i + 1, if f > 0 then -1 else f, text + sep + Hex(g[i]))
  }

  function Print(g: Groups): string {
    PrintFrom(g, 0, 0, "")
  }

  /** Fields with single colons between them. */
  function Join(g: seq<U16>): string {
    if g == [] then ""
    else
      var n := |g| - 1;
      Join(g[..n]) + (if n > 0 then ":" else "") + Hex(g[n])
  }

  ghost predicate NonZero(g: seq<U16>) {
    forall i :: 0 <= i < |g| ==> g[i] != 0
  }

  ghost predicate AllZero(g: seq<U16>) {
    forall i :: 0 <= i < |g| ==> g[i] == 0
  }

  function FirstZero(g: Groups, i: nat): (z: nat)
    requires i <= |g|
    ensures i <= z <= |g| && NonZero(g[i..z]) && (z < |g| ==> g[z] == 0)
    decreases |g| - i
  {
    if i == |g| || g[i] == 0 then i
    else
      var z := FirstZero(g, i + 1);
      assert g[i..z] == [g[i]] + g[i + 1..z];
      z
  }

  function EndOfZeros(g: Groups, i: nat): (e: nat)
    requires i <= |g|
    ensures i <= e <= |g| && AllZero(g[i..e]) && (e < |g| ==> g[e] != 0)
    decreases |g| - i
  {
    if i == |g| || g[i] != 0 then i
    else
      var e := EndOfZeros(g, i + 1);
      assert g[i..e] == [g[i]] + g[i + 1..e];
      e
  }

  lemma JoinNext(g: Groups, lo: nat, i: nat)
    requires lo <= i < 8
    ensures Join(g[lo..i + 1]) == Join(g[lo..i]) + (if i > lo then ":" else "") + Hex(g[i])
  {
    assert g[lo..i + 1][..i - lo] == g[lo..i];
  }

  lemma {:induction false} PrintsNonZeros(g: Groups, i: nat, z: nat)
    requires i <= z <= 8 && NonZero(g[i..z])
    ensures PrintFrom(g, i, 0, Join(g[..i])) == PrintFrom(g, z, 0, Join(g[..z]))
    decreases z - i
  {
    if i < z {
      assert g[i] == g[i..z][0];
      JoinNext(g, 0, i);
      assert Join(g[..i]) + (if i > 0 then ":" else "") + Hex(g[i]) == Join(g[..i + 1]);
      assert g[i + 1..z] == g[i..z][1..];
      PrintsNonZeros(g, i + 1, z);
    }
  }

  lemma {:induction false} SkipsZeros(g: Groups, i: nat, e: nat, f: int, text: string)
    requires i <= e <= 8 && AllZero(g[i..e]) && f > 0
    ensures PrintFrom(g, i, f, text) == PrintFrom(g, e, f + e - i, text)
    decreases e - i
  {
    if i < e {
      assert g[i] == g[i..e][0];
      assert g[i + 1..e] == g[i..e][1..];
      SkipsZeros(g, i + 1, e, f + 1, text);
    }
  }

  lemma {:induction false} PrintsRest(g: Groups, e: nat, i: nat, head: string)
    requires e < i <= 8
    ensures PrintFrom(g, i, -1, head + Join(g[e..i])) == head + Join(g[e..])
    decreases 8 - i
  {
    if i < 8 {
      JoinNext(g, e, i);
      assert head + Join(g[e..i]) + ":" + Hex(g[i]) == head + Join(g[e..i + 1]);
      PrintsRest(g, e, i + 1, head);
    } else {
      assert g[e..8] == g[e..];
    }
  }

  /** What is printed: the groups joined, or those before the first run of zeros, "::", and those
      after it. */
  lemma PrintedForm(g: Groups)
    ensures var z := FirstZero(g, 0);
            var e := EndOfZeros(g, z);
            Print(g) == if z == 8 then Join(g) else Join(g[..z]) + "::" + Join(g[e..])
  {
    var z := FirstZero(g, 0);
    var e := EndOfZeros(g, z);
    PrintsNonZeros(g, 0, z);
    if z == 8 {
      assert g[..8] == g;
    } else {
      var head := Join(g[..z]) + "::";
      assert e > z;
      assert g[z + 1..e] == g[z..e][1..];
      SkipsZeros(g, z + 1, e, 1, head);
      if e < 8 {
        assert head + "" + Hex(g[e]) == head + Join(g[e..e + 1]);
        PrintsRest(g, e, e + 1, head);
      } else {
        assert g[e..] == [];
        assert head + "" == head;
      }
    }
  }

  // ---------------------------------------------------------------- the parser

  /** The pieces between colons. */
  function Fields(s: string): (f: seq<string>)
    ensures |f| >= 1
  {
    if s == "" then [""]
    else
      var n := |s| - 1;
      var f := Fields(s[..n]);
      if s[n] == ':' then f + [""] else f[..|f| - 1] + [f[|f| - 1] + [s[n]]]
  }

  function ParseFields(f: seq<string>): Option<seq<U16>> {
    if f == [] then Some([])
    else
      var n := |f| - 1;
      match (ParseFields(f[..n]), ParseField(f[n]))
      case (Some(g), Some(v)) => if v < 0x1_0000 then Some(g + [v]) else None
      case _ => None
  }

  /** A possibly empty list of fields. */
  function ParseList(s: string): Option<seq<U16>> {
    if s == "" then Some([]) else ParseFields(Fields(s))
  }

  predicate DoubleAt(s: string, i: nat) {
    i + 1 < |s| && s[i] == ':' && s[i + 1] == ':'
  }

  /** The first "::" at or after i. */
  function FindDouble(s: string, i: nat): (r: Option<nat>)
    requires i <= |s|
    ensures r.Some? ==> r.value + 2 <= |s|
    decreases |s| - i
  {
    if i == |s| then None else if DoubleAt(s, i) then Some(i) else FindDouble(s, i + 1)
  }

  function Parse(s: string): Option<seq<U16>> {
    match FindDouble(s, 0)
    case None =>
      (match ParseList(s) case Some(g) => if |g| == 8 then Some(g) else None case None => None)
    case Some(i) => FillZeros(ParseList(s[..i]), ParseList(s[i + 2..]))
  }

  /** "::" stands for one or more groups of zeros. */
  function FillZeros(left: Option<seq<U16>>, right: Option<seq<U16>>): Option<seq<U16>> {
    match (left, right)
    case (Some(l), Some(r)) => if |l| + |r| <= 7 then Some(l + seq(8 - |l| - |r|, _ => 0) + r) else None
    case _ => None
  }

  // ---------------------------------------------------------------- reading back

  lemma {:induction false} FieldsExtend(s: string, w: string)
    requires NoColon(w)
    ensures var f := Fields(s); Fields(s + w) == f[..|f| - 1] + [f[|f| - 1] + w]
    decreases |w|
  {
    var f := Fields(s);
    if w == "" {
      assert s + w == s && f[|f| - 1] + w == f[|f| - 1];
    } else {
      var n := |w| - 1;
      FieldsExtend(s, w[..n]);
      assert (s + w)[..|s + w| - 1] == s + w[..n];
      assert w[..n] + [w[n]] == w;
      assert f[|f| - 1] + w[..n] + [w[n]] == f[|f| - 1] + w;
    }
  }

  function HexAll(g: seq<U16>): (f: seq<string>)
    ensures |f| == |g|
  {
    seq(|g|, i requires 0 <= i < |g| => Hex(g[i]))
  }

  lemma FieldsAfterColon(s: string)
    ensures Fields(s + ":") == Fields(s) + [""]
  {
    assert (s + ":")[..|s|] == s;
  }

  lemma {:induction false} JoinedFields(g: seq<U16>)
    requires g != []
    ensures Fields(Join(g)) == HexAll(g)
  {
    var n := |g| - 1;
    HexReads(g[n]);
    var h := Hex(g[n]);
    assert HexAll(g) == HexAll(g[..n]) + [h];
    if n > 0 {
      var l := Join(g[..n]);
      JoinedFields(g[..n]);
      FieldsAfterColon(l);
      FieldsExtend(l + ":", h);
      assert "" + h == h;
      assert (HexAll(g[..n]) + [""])[..n] == HexAll(g[..n]);
    } else {
      FieldsExtend("", h);
      assert "" + "" + h == h && "" + h == h;
      assert Fields("") == [""] && [""][..0] == [];
    }
  }

  lemma {:induction false} ParsesAll(g: seq<U16>)
    ensures ParseFields(HexAll(g)) == Some(g)
  {
    if g != [] {
      var n := |g| - 1;
      FieldRoundTrip(g[n]);
      ParsesAll(g[..n]);
      assert HexAll(g)[..n] == HexAll(g[..n]);
      assert g == g[..n] + [g[n]];
    }
  }

  lemma JoinEmptyIff(g: seq<U16>)
    ensures Join(g) == "" <==> g == []
  {
  }

  lemma ListRoundTrip(g: seq<U16>)
    ensures ParseList(Join(g)) == Some(g)
  {
    JoinEmptyIff(g);
    if g != [] {
      JoinedFields(g);
      ParsesAll(g);
    }
  }

  /** Joined fields begin and end with a digit and have no two colons in a row. */
  ghost predicate WellSpaced(s: string) {
    && (s != "" ==> s[0] != ':' && s[|s| - 1] != ':')
    && (forall i :: 0 <= i < |s| ==> !DoubleAt(s, i))
  }

  lemma {:induction false} JoinWellSpaced(g: seq<U16>)
    ensures WellSpaced(Join(g))
  {
    if g != [] {
      var n := |g| - 1;
      HexReads(g[n]);
      JoinWellSpaced(g[..n]);
      JoinEmptyIff(g[..n]);
      var l, h := Join(g[..n]), Hex(g[n]);
      var s := Join(g);
      if n > 0 {
        assert s == l + ":" + h;
        forall i | 0 <= i < |s| ensures !DoubleAt(s, i) {
          if i + 1 < |l| { assert !DoubleAt(l, i); }
        }
      } else {
        assert s == h;
      }
    }
  }

  lemma {:induction false} FindsNone(s: string, i: nat)
    requires i <= |s| && forall k :: i <= k < |s| ==> !DoubleAt(s, k)
    ensures FindDouble(s, i) == None
    decreases |s| - i
  {
    if i < |s| { FindsNone(s, i + 1); }
  }

  lemma {:induction false} FindsFirst(s: string, i: nat, p: nat)
    requires i <= p < |s| && DoubleAt(s, p) && forall k :: i <= k < p ==> !DoubleAt(s, k)
    ensures FindDouble(s, i) == Some(p)
    decreases p - i
  {
    if i < p { FindsFirst(s, i + 1, p); }
  }

  /** The "::" that was printed is the only one. */
  lemma OneDouble(l: string, r: string)
    requires WellSpaced(l) && WellSpaced(r)
    ensures forall i: nat :: DoubleAt(l + "::" + r, i) <==> i == |l|
  {
    var s := l + "::" + r;
    forall i: nat ensures DoubleAt(s, i) <==> i == |l| {
      if i + 1 < |l| { assert !DoubleAt(l, i); }
      if |l| + 2 <= i < |s| { assert !DoubleAt(r, i - |l| - 2); }
    }
  }

  lemma ZeroRun(g: Groups, z: nat, e: nat)
    requires z < e <= |g| && AllZero(g[z..e])
    ensures var l, r := g[..z], g[e..]; |l| + |r| <= 7 && l + seq(8 - |l| - |r|, _ => 0) + r == g
  {
    assert g[z..e] == seq(e - z, _ => 0);
    assert g == g[..z] + g[z..e] + g[e..];
  }

  lemma ShortenedDouble(l: seq<U16>, r: seq<U16>)
    ensures forall i: nat :: DoubleAt(Join(l) + "::" + Join(r), i) <==> i == |Join(l)|
  {
    JoinWellSpaced(l);
    JoinWellSpaced(r);
    OneDouble(Join(l), Join(r));
  }

  lemma ShortenedIsFound(l: seq<U16>, r: seq<U16>)
    ensures FindDouble(Join(l) + "::" + Join(r), 0) == Some(|Join(l)|)
  {
    ShortenedDouble(l, r);
    FindsFirst(Join(l) + "::" + Join(r), 0, |Join(l)|);
  }

  lemma ParsesShortened(l: seq<U16>, r: seq<U16>)
    requires |l| + |r| <= 7
    ensures Parse(Join(l) + "::" + Join(r)) == Some(l + seq(8 - |l| - |r|, _ => 0) + r)
  {
    hide Parse, Join, FindDouble, ParseList;
    ShortenedIsFound(l, r);
    ParsesAround(Join(l) + "::" + Join(r), |Join(l)|);
    SplitsAt(Join(l), Join(r));
    ListRoundTrip(l);
    ListRoundTrip(r);
  }

  lemma ParsesAround(s: string, i: nat)
    requires FindDouble(s, 0) == Some(i)
    ensures i + 2 <= |s| && Parse(s) == FillZeros(ParseList(s[..i]), ParseList(s[i + 2..]))
  {
  }

  lemma SplitsAt(l: string, r: string)
    ensures var s := l + "::" + r; s[..|l|] == l && s[|l| + 2..] == r
  {
  }

  lemma ParsesFull(g: seq<U16>)
    requires |g| == 8
    ensures Parse(Join(g)) == Some(g)
  {
    JoinWellSpaced(g);
    FindsNone(Join(g), 0);
    ListRoundTrip(g);
  }

  lemma ShortenedRoundTrip(g: Groups, z: nat, e: nat, text: string)
    requires z < e <= |g| && AllZero(g[z..e]) && text == Join(g[..z]) + "::" + Join(g[e..])
    ensures Parse(text) == Some(g)
  {
    hide Parse, Join, AllZero;
    ZeroRun(g, z, e);
    ParsesShortened(g[..z], g[e..]);
  }

  /** Parsing what was printed returns the groups. */
  lemma PrintRoundTrip(g: Groups)
    ensures Parse(Print(g)) == Some(g)
  {
    var z := FirstZero(g, 0);
    var e := EndOfZeros(g, z);
    PrintedForm(g);
    if z == 8 {
      ParsesFull(g);
    } else {
      ShortenedRoundTrip(g, z, e, Print(g));
    }
  }

  /** The text has at most one "::". */
  lemma AtMostOneDouble(g: Groups, i: nat, j: nat)
    requires DoubleAt(Print(g), i) && DoubleAt(Print(g), j)
    ensures i == j
  {
    var z := FirstZero(g, 0);
    PrintedForm(g);
    if z == 8 {
      JoinWellSpaced(g);
    } else {
      ShortenedDouble(g[..z], g[EndOfZeros(g, z)..]);
    }
  }

  lemma {:induction false} JoinIsShort(g: seq<U16>)
    ensures |Join(g)| <= if g == [] then 0 else 5 * |g| - 1
  {
    if g != [] {
      HexIsShort(g[|g| - 1]);
      JoinIsShort(g[..|g| - 1]);
    }
  }

  lemma PrintIsShort(g: Groups)
    ensures |Print(g)| <= 39
  {
    var z := FirstZero(g, 0);
    var e := EndOfZeros(g, z);
    PrintedForm(g);
    JoinIsShort(g);
    JoinIsShort(g[..z]);
    JoinIsShort(g[e..]);
  }

  /** For every address the text is a valid form of at most 39 characters that parses back to the
      address; so different addresses print differently. */
  lemma AddressRoundTrip(a: Addr, b: Addr)
    ensures Parse(Print(GroupsOf(a))) == Some(GroupsOf(a)) && AddrFrom(GroupsOf(a)) == a
    ensures |Print(GroupsOf(a))| <= 39
    ensures Print(GroupsOf(a)) == Print(GroupsOf(b)) ==> a == b
  {
    PrintRoundTrip(GroupsOf(a));
    PrintRoundTrip(GroupsOf(b));
    PrintIsShort(GroupsOf(a));
    AddrOfGroups(a);
    AddrOfGroups(b);
  }

  // ---------------------------------------------------------------- the C string

  lemma {:induction false} PrintExtends(g: Groups, i: nat, f: int, text: string)
    requires i <= 8
    ensures text <= PrintFrom(g, i, f, text)
    decreases 8 - i
  {
    if i < 8 {
      if g[i] == 0 && f >= 0 { PrintExtends(g, i + 1, f + 1, if f == 0 then text + "::" else text); }
      else {
        var sep := if f > 0 then "" else if i > 0 then ":" else "";
        PrintExtends(g, i + 1, if f > 0 then -1 else f, text + sep + Hex(g[i]));
      }
    }
  }

  /** A zero-terminated string whose text is `text`. */
  ghost predicate IsText(s: seq<char>, text: string) {
    && |text| < |s| && s[..|text|] == text && s[|text|] == '\0'
    && forall i :: 0 <= i < |text| ==> text[i] != '\0'
  }

  method StrLen(buf: array<char>, ghost text: string) returns (n: nat)
    requires IsText(buf[..], text)
    ensures n == |text|
  {
    assert forall k :: 0 <= k < |text| ==> buf[k] == buf[..][..|text|][k];
    n := 0;
    while buf[n] != '\0'
      invariant 0 <= n <= |text|
      decreases |text| - n
    {
      n := n + 1;
    }
  }

  /** sprintf(buf + strlen(buf), ...) */
  method Append(buf: array<char>, more: string, ghost text: string)
    requires IsText(buf[..], text) && |text| + |more| < buf.Length
    requires forall i :: 0 <= i < |more| ==> more[i] != '\0'
    modifies buf
    ensures IsText(buf[..], text + more)
  {
    var offset := StrLen(buf, text);
    var i := 0;
    while i < |more|
      invariant 0 <= i <= |more|
      invariant buf[..offset + i] == text + more[..i]
    {
      buf[offset + i] := more[i];
      i := i + 1;
    }
    buf[offset + i] := '\0';
    assert buf[..offset + i] == text + more;
  }

  /** sprint_addr6: 40 free characters behind the text are enough. */
  method SprintAddr6(buf: array<char>, addr: Option<Addr>, ghost text: string)
    requires IsText(buf[..], text) && |text| + 39 < buf.Length
    modifies buf
    ensures IsText(buf[..], text + if addr.Some? then Print(GroupsOf(addr.value)) else "")
    ensures addr.None? ==> buf[..] == old(buf[..])
  {
    assert text + "" == text;
    if addr.None? {
      return;
    }
    var u8 := addr.value;
    ghost var g := GroupsOf(u8);
    ghost var done := "";
    PrintIsShort(g);
    var i := 0;
    var f := 0;
    while i < 16
      invariant 0 <= i <= 16 && i % 2 == 0
      invariant IsText(buf[..], text + done)
      invariant PrintFrom(g, i / 2, f, done) == Print(g)
    {
      var a := u8[i] as int * 256 + u8[i + 1] as int;
      f, done := PrintGroup(buf, a, i, f, g, text, done);
      i := i + 2;
    }
  }

  /** The body of the loop. */
  method PrintGroup(buf: array<char>, a: U16, i: nat, f0: int, ghost g: Groups, ghost text: string, ghost done0: string)
    returns (f: int, ghost done: string)
    requires IsText(buf[..], text + done0) && |text| + 39 < buf.Length
    requires i < 16 && i % 2 == 0 && a == g[i / 2] && PrintFrom(g, i / 2, f0, done0) == Print(g)
    modifies buf
    ensures IsText(buf[..], text + done) && PrintFrom(g, i / 2 + 1, f, done) == Print(g)
  {
    f, done := f0, done0;
    if a == 0 && f >= 0 {
      if f == 0 {
        done := PrintNext(buf, "::", g, i / 2 + 1, 1, text, done0);
      }
      f := f + 1;
    } else {
      var sep := if f > 0 then "" else if i > 0 then ":" else "";
      f := if f > 0 then -1 else f;
      HexReads(a);
      assert done0 + sep + Hex(a) == done0 + (sep + Hex(a));
      done := PrintNext(buf, sep + Hex(a), g, i / 2 + 1, f, text, done0);
    }
  }

  /** One or two sprintf calls of the loop; what is left to print still fits. */
  method PrintNext(buf: array<char>, more: string, ghost g: Groups, ghost i: nat, ghost f: int,
                   ghost text: string, ghost done: string)
    returns (ghost next: string)
    requires IsText(buf[..], text + done) && |text| + 39 < buf.Length
    requires i <= 8 && PrintFrom(g, i, f, done + more) == Print(g)
    requires forall k :: 0 <= k < |more| ==> more[k] != '\0'
    modifies buf
    ensures next == done + more && IsText(buf[..], text + next)
  {
    PrintIsShort(g);
    PrintExtends(g, i, f, done + more);
    next := done + more;
    assert text + next == (text + done) + more;
    Append(buf, more, text + done);
  }
}
