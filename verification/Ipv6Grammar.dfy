/** Which strings the parser of IPv6 addresses accepts, and as which address: a grammar, and the proof that it is exact. */
module Ipv6Grammar {
  import opened Bytes
  import opened Ipv6Text

  /** Hexadecimal digits, in either case and with any leading zeros, that make a 16-bit number. */
  predicate IsNumber(d: string) {
    Completes(NO_VALUE, d)
  }

  predicate AllNumbers(ds: seq<string>) {
    forall i :: 0 <= i < |ds| ==> IsNumber(ds[i])
  }

  function ValueOf(d: string): uint16
    requires IsNumber(d)
  {
    Reading(NO_VALUE, d)
  }

  function Values(ds: seq<string>): (w: Words)
    requires AllNumbers(ds)
    ensures |w| == |ds| && forall i :: 0 <= i < |ds| ==> w[i] == ValueOf(ds[i])
  {
    seq(|ds|, i requires 0 <= i < |ds| => ValueOf(ds[i]))
  }

  /** The numbers, each with a colon in front. */
  function More(ds: seq<string>): string {
    if ds == [] then "" else ":" + ds[0] + More(ds[1..])
  }

  /** The numbers with colons between them. */
  function Joined(ds: seq<string>): string {
    if ds == [] then "" else ds[0] + More(ds[1..])
  }

  function Zeros(n: nat): (w: Words)
    ensures |w| == n && forall i :: 0 <= i < n ==> w[i] == 0
  {
    seq(n, _ => 0)
  }

  function Colon(colon: bool): string {
    if colon then ":" else ""
  }

  /** Eight numbers. */
  ghost predicate SpellsAll(str: string, w: Words) {
    exists ds: seq<string> :: |ds| == 8 && AllNumbers(ds) && str == Joined(ds) && w == Values(ds)
  }

  /**
   At most seven numbers with "::" between, before or after them. The code takes a single colon
   at the end of such a string as well; but it does not take seven numbers when "::" or that
   colon comes last.
   */
  ghost predicate SpellsGap(str: string, w: Words, ds: seq<string>, es: seq<string>, colon: bool) {
    && AllNumbers(ds) && AllNumbers(es) && |ds| + |es| <= 7 && (es == [] || colon ==> |ds| + |es| <= 6) && (colon ==> es != [])
    && str == Joined(ds) + "::" + Joined(es) + Colon(colon)
    && w == Values(ds) + Zeros(8 - |ds| - |es|) + Values(es)
  }

  ghost predicate Spells(str: string, w: Words) {
    SpellsAll(str, w) || exists ds, es, colon :: SpellsGap(str, w, ds, es, colon)
  }

  // ----- what is accepted has this form -----

  /** The numbers at the front of a text: the rest of the one that has begun, if any, and further ones. */
  ghost predicate Begins(value: int, d: string, ds: seq<string>) {
    AllNumbers(ds) && (Completes(value, d) || (value == NO_VALUE && d == "" && ds == []))
  }

  function Read(value: int, d: string, ds: seq<string>): Words
    requires NO_VALUE <= value && Begins(value, d, ds)
  {
    if value == NO_VALUE && d == "" then [] else [Reading(value, d)] + Values(ds)
  }

  /** What the parser makes of a number when it meets the digit `c`. */
  function Grown(value: int, c: char): (v: int)
    requires IsDigit(c)
    ensures v >= 0
  {
    (if value < 0 then 0 else value) * 16 + DigitValue(c)
  }

  /** One digit of a number. */
  lemma DigitBegins(value: int, c: char, d: string, ds: seq<string>)
    requires NO_VALUE <= value && IsDigit(c)
    ensures Completes(value, [c] + d) <==> Grown(value, c) <= 0xFFFF && Completes(Grown(value, c), d)
    ensures Begins(value, [c] + d, ds) <==> Grown(value, c) <= 0xFFFF && Begins(Grown(value, c), d, ds)
    ensures Begins(value, [c] + d, ds) ==> Read(value, [c] + d, ds) == Read(Grown(value, c), d, ds)
  {
    hide Completes, IsDigit, DigitValue;
    var s := [c] + d;
    CompletesDigit(s, |d|, value);
    assert s[..|d| + 1] == s && s[1..] == d && d[..|d|] == d;
    if Completes(Grown(value, c), d) {
      DigitReads(value, c, d);
    }
  }

  lemma {:induction false} DigitReads(value: int, c: char, d: string)
    requires IsDigit(c) && Completes(Grown(value, c), d)
    ensures (forall k :: 0 <= k < |d| ==> IsDigit(d[k])) && (forall k :: 0 <= k <= |d| ==> IsDigit(([c] + d)[k]))
    ensures Reading(value, [c] + d) == Reading(Grown(value, c), d)
  {
    assert ([c] + d)[1..] == d;
  }

  /** The next number begins behind a colon. */
  lemma {:induction false} ColonBegins(value: int, d: string, ds: seq<string>)
    requires 0 <= value <= 0xFFFF && Begins(NO_VALUE, d, ds) && d != ""
    ensures Begins(value, "", [d] + ds) && Read(value, "", [d] + ds) == [value] + Read(NO_VALUE, d, ds)
    ensures More([d] + ds) == ":" + d + More(ds)
  {
    hide Reading;
    var all := [d] + ds;
    assert all[0] == d && all[1..] == ds;
    NothingRead(value);
    ValuesFront(all);
  }

  lemma {:induction false} NothingRead(value: int)
    ensures Reading(value, "") == value
  {
  }

  lemma EmptyBegins(value: int)
    requires NO_VALUE <= value <= 0xFFFF
    ensures Begins(value, "", []) && Read(value, "", []) == if value < 0 then [] else [value]
  {
    assert Values([]) == [];
  }

  /** What the parser makes of the words around "::". */
  lemma Gap(r: Reader, vs: Words)
    requires GoodReader(r) && r.j >= 0 && r.i + |vs| <= 8 && |vs| <= 1 && (|vs| == 1 ==> r.value == vs[0])
    ensures var t := if |vs| == 1 then Stored(r) else r;
            Expanded(t.w, t.i, t.j) == r.w[..r.j] + Zeros(8 - r.i - |vs|) + r.w[r.j..r.i] + vs
  {
    assert seq(8 - r.i - |vs|, _ => 0) == Zeros(8 - r.i - |vs|);
    if |vs| == 1 {
      assert Stored(r).w[..r.j] == r.w[..r.j] && Stored(r).w[r.j..r.i + 1] == r.w[r.j..r.i] + vs;
    } else {
      assert r.w[r.j..r.i] + vs == r.w[r.j..r.i];
    }
  }

  /** The words behind "::" are stored one after the other. */
  lemma StoredGap(r: Reader, vs: Words)
    requires GoodReader(r) && r.j >= 0 && r.value >= 0 && r.i < 8 && r.i + 1 + |vs| <= 8
    ensures var t := Stored(r);
            t.w[..t.j] + Zeros(8 - t.i - |vs|) + t.w[t.j..t.i] + vs
            == r.w[..r.j] + Zeros(8 - r.i - |[r.value] + vs|) + r.w[r.j..r.i] + ([r.value] + vs)
  {
    var t := Stored(r);
    assert t.w[..t.j] == r.w[..r.j] && t.w[t.j..t.i] == r.w[r.j..r.i] + [r.value];
  }

  /** The form of a string that is accepted behind "::". */
  ghost predicate TailForm(s: string, r: Reader, w: Words, d: string, ds: seq<string>, colon: bool)
    requires GoodReader(r) && r.j >= 0
  {
    && Begins(r.value, d, ds) && s == d + More(ds) + Colon(colon)
    && var vs := Read(r.value, d, ds);
       && r.i + |vs| <= 7 && (vs == [] || colon ==> r.i + |vs| <= 6) && (colon ==> vs != [])
       && w == r.w[..r.j] + Zeros(8 - r.i - |vs|) + r.w[r.j..r.i] + vs
  }

  lemma {:induction false} TailEnd(r: Reader, w: Words)
    requires GoodReader(r) && r.j >= 0
    ensures Parse("", r) == Address(w) <==> TailForm("", r, w, "", [], false)
  {
    hide Expanded, Begins, Read;
    EmptyBegins(r.value);
    var vs := if r.value < 0 then [] else [r.value];
    assert "" + More([]) + Colon(false) == "";
    if r.i + |vs| <= 8 {
      Gap(r, vs);
    }
  }

  lemma TailDigit(c: char, s: string, r: Reader, w: Words, d: string, ds: seq<string>, colon: bool)
    requires GoodReader(r) && r.j >= 0 && IsDigit(c) && Grown(r.value, c) <= 0xFFFF
    ensures TailForm([c] + s, r, w, [c] + d, ds, colon) <==> TailForm(s, r.(value := Grown(r.value, c)), w, d, ds, colon)
  {
    hide IsDigit, Grown, Begins, Read, Zeros;
    DigitBegins(r.value, c, d, ds);
    assert [c] + d + More(ds) + Colon(colon) == [c] + (d + More(ds) + Colon(colon));
    assert ([c] + s)[1..] == s && ([c] + (d + More(ds) + Colon(colon)))[1..] == d + More(ds) + Colon(colon);
  }

  lemma TailColon(s: string, r: Reader, w: Words, d: string, ds: seq<string>, colon: bool)
    requires GoodReader(r) && r.j >= 0 && r.value >= 0 && r.i < 8
    ensures d != "" && Begins(NO_VALUE, d, ds) ==>
              (TailForm(":" + s, r, w, "", [d] + ds, colon) <==> TailForm(s, Stored(r), w, d, ds, colon))
    ensures TailForm(":" + s, r, w, "", [], true) <==> TailForm(s, Stored(r), w, "", [], false)
  {
    hide Begins, Read, Zeros, Stored;
    assert (":" + s)[1..] == s;
    EmptyBegins(r.value);
    EmptyBegins(NO_VALUE);
    StoredFields(r);
    if d != "" && Begins(NO_VALUE, d, ds) {
      ColonBegins(r.value, d, ds);
      var rest := d + More(ds) + Colon(colon);
      assert "" + More([d] + ds) + Colon(colon) == ":" + rest;
      assert (":" + rest)[1..] == rest;
      assert ":" + s == ":" + rest <==> s == rest;
      var vs := Read(NO_VALUE, d, ds);
      assert Read(r.value, "", [d] + ds) == [r.value] + vs;
      assert |[r.value] + vs| == 1 + |vs| && [r.value] + vs != [];
      assert vs != [] by {
        ReadSome(d, ds);
      }
      if r.i + 1 + |Read(NO_VALUE, d, ds)| <= 8 {
        StoredGap(r, Read(NO_VALUE, d, ds));
      }
    }
    assert "" + More([]) + Colon(true) == ":" && "" + More([]) + Colon(false) == "";
    if r.i + 1 <= 8 {
      StoredGap(r, []);
    }
  }

  lemma ReadSome(d: string, ds: seq<string>)
    requires d != "" && Begins(NO_VALUE, d, ds)
    ensures Read(NO_VALUE, d, ds) != []
  {
  }

  lemma StoredFields(r: Reader)
    requires GoodReader(r) && r.value >= 0 && r.i < 8
    ensures var t := Stored(r); GoodReader(t) && t.i == r.i + 1 && t.j == r.j && t.value == NO_VALUE
  {
  }

  lemma {:induction false} TailSound(s: string, r: Reader, w: Words) returns (d: string, ds: seq<string>, colon: bool)
    requires GoodReader(r) && r.j >= 0 && Parse(s, r) == Address(w)
    ensures TailForm(s, r, w, d, ds, colon)
    decreases |s|
  {
    hide Expanded, Completes, IsDigit, DigitValue, Begins, Read, TailForm;
    if s == "" {
      TailEnd(r, w);
      d, ds, colon := "", [], false;
    } else if IsDigit(s[0]) {
      d, ds, colon := TailSound(s[1..], r.(value := Grown(r.value, s[0])), w);
      TailDigit(s[0], s[1..], r, w, d, ds, colon);
      d := [s[0]] + d;
      assert s == [s[0]] + s[1..];
    } else {
      assert s[0] == ':' && r.i < 8 && r.value >= 0;
      d, ds, colon := TailSound(s[1..], Stored(r), w);
      assert s == ":" + s[1..];
      TailColon(s[1..], r, w, d, ds, colon);
      TailShape(s[1..], Stored(r), w, d, ds, colon);
      if d == "" {
        d, ds, colon := "", [], true;
      } else {
        d, ds := "", [d] + ds;
      }
    }
  }

  lemma TailShape(s: string, r: Reader, w: Words, d: string, ds: seq<string>, colon: bool)
    requires GoodReader(r) && r.j >= 0 && TailForm(s, r, w, d, ds, colon)
    ensures Begins(r.value, d, ds) && (r.value < 0 && d == "" ==> ds == [] && !colon)
  {
  }

  lemma {:induction false} TailComplete(s: string, r: Reader, w: Words, d: string, ds: seq<string>, colon: bool)
    requires GoodReader(r) && r.j >= 0 && TailForm(s, r, w, d, ds, colon)
    ensures Parse(s, r) == Address(w)
    decreases |s|
  {
    hide Expanded, Completes, IsDigit, DigitValue, TailForm, Begins, Grown;
    TailFacts(s, r, w, d, ds, colon);
    if d != "" {
      assert d == [d[0]] + d[1..] && s == [s[0]] + s[1..];
      TailDigit(s[0], s[1..], r, w, d[1..], ds, colon);
      TailComplete(s[1..], r.(value := Grown(r.value, s[0])), w, d[1..], ds, colon);
      ParsesDigit(s, r);
    } else if ds != [] {
      assert s == ":" + s[1..] && ds == [ds[0]] + ds[1..];
      TailColon(s[1..], r, w, ds[0], ds[1..], colon);
      TailComplete(s[1..], Stored(r), w, ds[0], ds[1..], colon);
      ParseColon(s[1..], r);
    } else if colon {
      assert s == ":" + s[1..];
      TailColon(s[1..], r, w, "", [], colon);
      TailComplete(s[1..], Stored(r), w, "", [], false);
      ParseOneColon(r);
    } else {
      TailEnd(r, w);
    }
  }

  lemma {:induction false} ParsesDigit(s: string, r: Reader)
    requires GoodReader(r) && s != "" && IsDigit(s[0]) && Grown(r.value, s[0]) <= 0xFFFF
    ensures Parse(s, r) == Parse(s[1..], r.(value := Grown(r.value, s[0])))
  {
    hide IsDigit, DigitValue;
    ParseDigit(s, r);
  }

  lemma {:induction false} ParseOneColon(r: Reader)
    requires GoodReader(r) && r.value >= 0 && r.i < 8
    ensures Parse(":", r) == Parse("", Stored(r))
  {
    assert ":"[1..] == "";
  }

  /** What comes first in the form. */
  lemma TailFacts(s: string, r: Reader, w: Words, d: string, ds: seq<string>, colon: bool)
    requires GoodReader(r) && r.j >= 0 && TailForm(s, r, w, d, ds, colon)
    ensures d != "" ==> s != "" && s[0] == d[0] && IsDigit(s[0]) && Grown(r.value, s[0]) <= 0xFFFF
    ensures d == "" && ds != [] ==>
              && r.value >= 0 && r.i < 8 && |s| > 1 && s[0] == ':' && s[1] != ':' && ds[0] != "" && Begins(NO_VALUE, ds[0], ds[1..])
    ensures d == "" && ds == [] && colon ==> s == ":" && r.value >= 0 && r.i < 8
    ensures d == "" && ds == [] && !colon ==> s == ""
  {
    hide DigitValue;
    if d != "" {
      assert d == [d[0]] + d[1..];
      DigitBegins(r.value, d[0], d[1..], ds);
    } else if ds != [] {
      NumberFront(ds[0]);
      MoreFront(ds, Colon(colon));
    }
  }

  lemma {:induction false} MoreFront(ds: seq<string>, after: string)
    requires ds != [] && ds[0] != ""
    ensures var s := More(ds) + after; |s| > 1 && s[0] == ':' && s[1] == ds[0][0]
  {
  }

  lemma NumberFront(d: string)
    requires IsNumber(d)
    ensures d != "" && IsDigit(d[0]) && d[0] != ':'
  {
  }

  // ----- the numbers before "::", or all of them -----

  /** What follows "::". */
  datatype Tail = Tail(d: string, ds: seq<string>, colon: bool) {
    function Text(): string {
      d + More(ds) + Colon(colon)
    }
  }

  /** The reader behind "::" when these words are in front of it. */
  function Past(r: Reader, vs: Words): (q: Reader)
    requires GoodReader(r) && r.i + |vs| <= 8
    ensures GoodReader(q) && q.i == q.j == r.i + |vs| && q.value == NO_VALUE && q.w[..q.i] == r.w[..r.i] + vs
  {
    Reader(r.i + |vs|, r.i + |vs|, NO_VALUE, r.w[..r.i] + vs + r.w[r.i + |vs|..])
  }

  ghost predicate HeadForm(s: string, r: Reader, w: Words, d: string, ds: seq<string>, tail: Option<Tail>)
    requires GoodReader(r) && r.j < 0
  {
    && Begins(r.value, d, ds)
    && var vs := Read(r.value, d, ds);
       match tail
       case None => s == d + More(ds) && vs != [] && r.i + |vs| == 8 && w == r.w[..r.i] + vs
       case Some(t) =>
         && s == d + More(ds) + "::" + t.Text() && r.i + |vs| <= 8
         && TailForm(t.Text(), Past(r, vs), w, t.d, t.ds, t.colon)
  }

  lemma {:induction false} HeadEnd(r: Reader, w: Words)
    requires GoodReader(r) && r.j < 0
    ensures Parse("", r) == Address(w) <==> HeadForm("", r, w, "", [], None)
  {
    hide Begins, Read, Expanded;
    EmptyBegins(r.value);
    assert "" + More([]) == "";
    if r.i == 7 {
      assert r.w[..7] == r.w[..r.i];
    }
  }

  lemma HeadDigit(c: char, s: string, r: Reader, w: Words, d: string, ds: seq<string>, tail: Option<Tail>)
    requires GoodReader(r) && r.j < 0 && IsDigit(c) && Grown(r.value, c) <= 0xFFFF
    ensures HeadForm([c] + s, r, w, [c] + d, ds, tail) <==> HeadForm(s, r.(value := Grown(r.value, c)), w, d, ds, tail)
  {
    hide IsDigit, Grown, Begins, Read, TailForm;
    DigitBegins(r.value, c, d, ds);
    var rest := d + More(ds) + match tail case None => "" case Some(t) => "::" + t.Text();
    assert [c] + s == [c] + rest <==> s == rest by {
      assert ([c] + s)[1..] == s && ([c] + rest)[1..] == rest;
    }
    match tail
    case None =>
      assert rest == d + More(ds) && [c] + rest == [c] + d + More(ds);
    case Some(t) =>
      assert rest == d + More(ds) + "::" + t.Text() && [c] + rest == [c] + d + More(ds) + "::" + t.Text();
  }

  lemma HeadColon(s: string, r: Reader, w: Words, d: string, ds: seq<string>, tail: Option<Tail>)
    requires GoodReader(r) && r.j < 0 && r.value >= 0 && r.i < 8 && d != "" && Begins(NO_VALUE, d, ds)
    ensures HeadForm(":" + s, r, w, "", [d] + ds, tail) <==> HeadForm(s, Stored(r), w, d, ds, tail)
  {
    hide Begins, Read, TailForm, Past;
    var vs, t := Read(NO_VALUE, d, ds), Stored(r);
    ColonBegins(r.value, d, ds);
    ReadSome(d, ds);
    var rest := d + More(ds) + match tail case None => "" case Some(t) => "::" + t.Text();
    assert ":" + s == ":" + rest <==> s == rest by {
      assert (":" + s)[1..] == s && (":" + rest)[1..] == rest;
    }
    match tail
    case None =>
      assert rest == d + More(ds) && ":" + rest == "" + More([d] + ds);
      assert t.w[..t.i] + vs == r.w[..r.i] + ([r.value] + vs);
    case Some(q) =>
      assert rest == d + More(ds) + "::" + q.Text() && ":" + rest == "" + More([d] + ds) + "::" + q.Text();
      if r.i + 1 + |vs| <= 8 {
        PastStored(r, vs);
      }
  }

  lemma PastStored(r: Reader, vs: Words)
    requires GoodReader(r) && r.value >= 0 && r.i + 1 + |vs| <= 8
    ensures Past(Stored(r), vs) == Past(r, [r.value] + vs)
  {
    var t := Stored(r);
    assert t.w[..t.i] + vs == r.w[..r.i] + ([r.value] + vs);
    assert t.w[t.i + |vs|..] == r.w[r.i + 1 + |vs|..];
  }

  /** The parser at "::". */
  lemma HeadGap(s: string, r: Reader, w: Words, t: Tail)
    requires GoodReader(r) && r.j < 0
    ensures HeadForm("::" + s, r, w, "", [], Some(t)) <==>
              s == t.Text() && (r.value >= 0 ==> r.i < 8) && TailForm(s, Past(r, if r.value >= 0 then [r.value] else []), w, t.d, t.ds, t.colon)
  {
    hide Begins, Read, TailForm, Past, Tail.Text;
    EmptyBegins(r.value);
    assert "" + More([]) + "::" + t.Text() == "::" + t.Text();
    assert ("::" + s)[2..] == s && ("::" + t.Text())[2..] == t.Text();
  }

  lemma {:induction false} GapParses(s: string, r: Reader)
    requires GoodReader(r) && r.j < 0
    ensures Parse("::" + s, r) == if r.value >= 0 && r.i == 8 then PastEnd
                                  else Parse(s, Past(r, if r.value >= 0 then [r.value] else []))
  {
    hide Past, Expanded;
    assert ("::" + s)[2..] == s;
    if r.value < 0 || r.i < 8 {
      GapReader(r);
    }
  }

  lemma GapReader(r: Reader)
    requires GoodReader(r) && r.j < 0 && (r.value >= 0 ==> r.i < 8)
    ensures var t := if r.value >= 0 then Stored(r) else r;
            t.(j := t.i) == Past(r, if r.value >= 0 then [r.value] else [])
  {
    if r.value < 0 {
      assert r.w[..r.i] + [] + r.w[r.i..] == r.w;
    } else {
      assert r.w[..r.i] + [r.value] + r.w[r.i + 1..] == r.w[r.i := r.value];
    }
  }

  lemma HeadShape(s: string, r: Reader, w: Words, d: string, ds: seq<string>, tail: Option<Tail>)
    requires GoodReader(r) && r.j < 0 && HeadForm(s, r, w, d, ds, tail)
    ensures Begins(r.value, d, ds)
    ensures r.value < 0 && d == "" ==> ds == [] && tail.Some? && |s| > 1 && s[0] == ':' && s[1] == ':'
  {
    hide TailForm;
  }

  lemma {:induction false} HeadSound(s: string, r: Reader, w: Words) returns (d: string, ds: seq<string>, tail: Option<Tail>)
    requires GoodReader(r) && r.j < 0 && Parse(s, r) == Address(w)
    ensures HeadForm(s, r, w, d, ds, tail)
    decreases |s|
  {
    hide Expanded, Completes, IsDigit, DigitValue, Begins, HeadForm, TailForm;
    if s == "" {
      HeadEnd(r, w);
      d, ds, tail := "", [], None;
    } else if IsDigit(s[0]) {
      d, ds, tail := HeadSound(s[1..], r.(value := Grown(r.value, s[0])), w);
      HeadDigit(s[0], s[1..], r, w, d, ds, tail);
      d := [s[0]] + d;
      assert s == [s[0]] + s[1..];
    } else if |s| > 1 && s[1] == ':' {
      assert s == "::" + s[2..];
      var e, es, colon;
      GapParses(s[2..], r);
      e, es, colon := TailSound(s[2..], Past(r, if r.value >= 0 then [r.value] else []), w);
      d, ds, tail := "", [], Some(Tail(e, es, colon));
      HeadGap(s[2..], r, w, tail.value);
      TailText(s[2..], Past(r, if r.value >= 0 then [r.value] else []), w, tail.value);
    } else {
      assert s == ":" + s[1..];
      d, ds, tail := HeadSound(s[1..], Stored(r), w);
      HeadShape(s[1..], Stored(r), w, d, ds, tail);
      HeadColon(s[1..], r, w, d, ds, tail);
      d, ds := "", [d] + ds;
    }
  }

  lemma TailText(s: string, r: Reader, w: Words, t: Tail)
    requires GoodReader(r) && r.j >= 0 && TailForm(s, r, w, t.d, t.ds, t.colon)
    ensures s == t.Text()
  {
  }

  /** What comes first in the form. */
  lemma HeadFacts(s: string, r: Reader, w: Words, d: string, ds: seq<string>, tail: Option<Tail>)
    requires GoodReader(r) && r.j < 0 && HeadForm(s, r, w, d, ds, tail)
    ensures d != "" ==> s != "" && s[0] == d[0] && IsDigit(s[0]) && Grown(r.value, s[0]) <= 0xFFFF
    ensures d == "" && ds != [] ==>
              && r.value >= 0 && r.i < 8 && |s| > 1 && s[0] == ':' && s[1] != ':' && ds[0] != "" && Begins(NO_VALUE, ds[0], ds[1..])
    ensures d == "" && ds == [] && tail.Some? ==> |s| > 1 && s == "::" + s[2..] && s[2..] == tail.value.Text() && (r.value >= 0 ==> r.i < 8)
    ensures d == "" && ds == [] && tail.None? ==> s == ""
  {
    hide DigitValue, TailForm;
    if d != "" {
      assert d == [d[0]] + d[1..];
      DigitBegins(r.value, d[0], d[1..], ds);
    } else if ds != [] {
      NumberFront(ds[0]);
      MoreFront(ds, match tail case None => "" case Some(t) => "::" + t.Text());
    }
  }

  lemma {:induction false} HeadComplete(s: string, r: Reader, w: Words, d: string, ds: seq<string>, tail: Option<Tail>)
    requires GoodReader(r) && r.j < 0 && HeadForm(s, r, w, d, ds, tail)
    ensures Parse(s, r) == Address(w)
    decreases |s|
  {
    hide Expanded, Completes, IsDigit, DigitValue, HeadForm, TailForm, Begins, Grown, Parse;
    HeadFacts(s, r, w, d, ds, tail);
    if d != "" {
      assert d == [d[0]] + d[1..] && s == [s[0]] + s[1..];
      HeadDigit(s[0], s[1..], r, w, d[1..], ds, tail);
      HeadComplete(s[1..], r.(value := Grown(r.value, s[0])), w, d[1..], ds, tail);
      ParsesDigit(s, r);
    } else if ds != [] {
      assert s == ":" + s[1..] && ds == [ds[0]] + ds[1..];
      HeadColon(s[1..], r, w, ds[0], ds[1..], tail);
      HeadComplete(s[1..], Stored(r), w, ds[0], ds[1..], tail);
      ParseColon(s[1..], r);
    } else if tail.Some? {
      var t := tail.value;
      HeadGap(s[2..], r, w, t);
      GapParses(s[2..], r);
      TailComplete(s[2..], Past(r, if r.value >= 0 then [r.value] else []), w, t.d, t.ds, t.colon);
    } else {
      HeadEnd(r, w);
    }
  }

  // ----- all strings -----

  /** A list of numbers as the parser meets it: the first one, and the others. */
  lemma ListBegins(ds: seq<string>)
    ensures var d, rest := if ds == [] then "" else ds[0], if ds == [] then [] else ds[1..];
            && (AllNumbers(ds) <==> Begins(NO_VALUE, d, rest) && (ds != [] ==> d != ""))
            && Joined(ds) == d + More(rest)
            && (AllNumbers(ds) ==> Read(NO_VALUE, d, rest) == Values(ds))
  {
    hide Completes;
    if ds != [] {
      assert ds == [ds[0]] + ds[1..];
      if AllNumbers(ds) {
        NumberFront(ds[0]);
        ValuesFront(ds);
      }
    } else {
      assert Values(ds) == [];
    }
  }

  lemma ValuesFront(ds: seq<string>)
    requires ds != [] && AllNumbers(ds)
    ensures Values(ds) == [ValueOf(ds[0])] + Values(ds[1..])
  {
  }

  /** The numbers that the parser met, as a list. */
  function Listed(d: string, ds: seq<string>): seq<string> {
    if d == "" then [] else [d] + ds
  }

  lemma {:induction false} ListedBegins(d: string, ds: seq<string>)
    requires Begins(NO_VALUE, d, ds)
    ensures var all := Listed(d, ds);
            && AllNumbers(all) && Joined(all) == d + More(ds) && Values(all) == Read(NO_VALUE, d, ds) && (d == "" ==> ds == [])
  {
    if d != "" {
      assert ([d] + ds)[1..] == ds;
      assert Values([d] + ds) == [ValueOf(d)] + Values(ds);
    } else {
      assert Values([]) == [];
    }
  }

  /** Behind "::", from the start of a string, the form is that of a list of numbers. */
  lemma GapForm(vs: Words, w: Words, w0: Words, t: Tail)
    requires |w0| == 8 && |vs| <= 8 && Begins(NO_VALUE, t.d, t.ds)
    ensures TailForm(t.Text(), Past(Reader(0, NO_VALUE, NO_VALUE, w0), vs), w, t.d, t.ds, t.colon) <==>
              var us := Read(NO_VALUE, t.d, t.ds);
              && |vs| + |us| <= 7 && (us == [] || t.colon ==> |vs| + |us| <= 6) && (t.colon ==> us != [])
              && w == vs + Zeros(8 - |vs| - |us|) + us
  {
    hide Begins, Read;
    var q := Past(Reader(0, NO_VALUE, NO_VALUE, w0), vs);
    assert q.w[..q.j] == w0[..0] + vs == vs && q.w[q.j..q.i] == [];
    var us := Read(NO_VALUE, t.d, t.ds);
    if |vs| + |us| <= 8 {
      assert vs + Zeros(8 - |vs| - |us|) + [] + us == vs + Zeros(8 - |vs| - |us|) + us;
    }
  }

  lemma {:induction false} Accepted(str: string, w0: Words, w: Words)
    requires |w0| == 8 && Parse(str, Reader(0, NO_VALUE, NO_VALUE, w0)) == Address(w)
    ensures Spells(str, w)
  {
    hide Parse, Begins, Read, TailForm, AllNumbers, Joined, Values, Listed;
    var r := Reader(0, NO_VALUE, NO_VALUE, w0);
    var d, ds, tail := HeadSound(str, r, w);
    ListedBegins(d, ds);
    assert w0[..0] + Read(NO_VALUE, d, ds) == Read(NO_VALUE, d, ds);
    if tail.None? {
      assert SpellsAll(str, w);
    } else {
      var t := tail.value;
      TailBegins(t.Text(), Past(r, Read(NO_VALUE, d, ds)), w, t);
      ListedBegins(t.d, t.ds);
      GapForm(Read(NO_VALUE, d, ds), w, w0, t);
      assert str == Joined(Listed(d, ds)) + "::" + Joined(Listed(t.d, t.ds)) + Colon(t.colon);
      assert SpellsGap(str, w, Listed(d, ds), Listed(t.d, t.ds), t.colon);
    }
  }

  lemma TailBegins(s: string, r: Reader, w: Words, t: Tail)
    requires GoodReader(r) && r.j >= 0 && TailForm(s, r, w, t.d, t.ds, t.colon)
    ensures Begins(r.value, t.d, t.ds)
  {
  }

  lemma {:induction false} AcceptsAll(str: string, w0: Words, w: Words, ds: seq<string>)
    requires |w0| == 8 && |ds| == 8 && AllNumbers(ds) && str == Joined(ds) && w == Values(ds)
    ensures Parse(str, Reader(0, NO_VALUE, NO_VALUE, w0)) == Address(w)
  {
    hide Parse, Begins, Read, AllNumbers, Joined;
    ListBegins(ds);
    assert w0[..0] + w == w;
    HeadComplete(str, Reader(0, NO_VALUE, NO_VALUE, w0), w, ds[0], ds[1..], None);
  }

  lemma {:induction false} AcceptsGap(str: string, w0: Words, w: Words, ds: seq<string>, es: seq<string>, colon: bool)
    requires |w0| == 8 && SpellsGap(str, w, ds, es, colon)
    ensures Parse(str, Reader(0, NO_VALUE, NO_VALUE, w0)) == Address(w)
  {
    hide Parse, Begins, Read, AllNumbers, Joined, TailForm, Values, More, Colon, Zeros, Past, Tail.Text;
    var r := Reader(0, NO_VALUE, NO_VALUE, w0);
    var d, rest := if ds == [] then "" else ds[0], if ds == [] then [] else ds[1..];
    var t := Tail(if es == [] then "" else es[0], if es == [] then [] else es[1..], colon);
    ListBegins(ds);
    ListBegins(es);
    GapForm(Values(ds), w, w0, t);
    TextOf(t);
    HeadComplete(str, r, w, d, rest, Some(t));
  }

  lemma TextOf(t: Tail)
    ensures t.Text() == t.d + More(t.ds) + Colon(t.colon)
    ensures forall s: string :: s + "::" + t.Text() == s + "::" + (t.d + More(t.ds)) + Colon(t.colon)
  {
  }

  /**
   The strings that the parser accepts, and the address that each of them means: eight numbers
   with colons between them, or at most seven with "::" somewhere, for the zeros that are
   missing. A number has any hexadecimal digits, in either case, whose value fits into 16 bits.
   */
  lemma {:induction false} AcceptsExactly(str: string, w0: Words, w: Words)
    requires |w0| == 8
    ensures Parse(str, Reader(0, NO_VALUE, NO_VALUE, w0)) == Address(w) <==> Spells(str, w)
  {
    hide Parse, SpellsGap;
    if Parse(str, Reader(0, NO_VALUE, NO_VALUE, w0)) == Address(w) {
      Accepted(str, w0, w);
    }
    if SpellsAll(str, w) {
      var ds: seq<string> :| |ds| == 8 && AllNumbers(ds) && str == Joined(ds) && w == Values(ds);
      AcceptsAll(str, w0, w, ds);
    }
    if ds, es, colon :| SpellsGap(str, w, ds, es, colon) {
      AcceptsGap(str, w0, w, ds, es, colon);
    }
  }

  // ----- numbers -----

  function Lower(c: char): char {
    if 'A' <= c <= 'F' then c + 32 as char else c
  }

  function LowerAll(d: string): (r: string)
    ensures |r| == |d| && forall i :: 0 <= i < |d| ==> r[i] == Lower(d[i])
  {
    seq(|d|, i requires 0 <= i < |d| => Lower(d[i]))
  }

  function Noughts(k: nat): (r: string)
    ensures |r| == k && forall i :: 0 <= i < k ==> r[i] == '0'
  {
    seq(k, _ => '0')
  }

  predicate AllDigits(d: string) {
    forall k :: 0 <= k < |d| ==> IsDigit(d[k])
  }

  lemma LowerDigit(c: char)
    ensures IsDigit(Lower(c)) <==> IsDigit(c)
    ensures IsDigit(c) ==> DigitValue(Lower(c)) == DigitValue(c) && Lower(c) == Digit(DigitValue(c))
  {
  }

  lemma {:induction false} ReadingSnoc(value: int, d: string, c: char)
    requires AllDigits(d) && IsDigit(c) && (value >= 0 || d != "")
    ensures AllDigits(d + [c]) && Reading(value, d + [c]) == Reading(value, d) * 16 + DigitValue(c)
    decreases |d|
  {
    hide DigitValue, IsDigit;
    if d == "" {
      assert (d + [c])[1..] == "";
    } else {
      var v := Grown(value, d[0]);
      if d[1..] == "" {
        assert Reading(v, d[1..]) == v;
      }
      ReadingSnoc(v, d[1..], c);
      assert (d + [c])[1..] == d[1..] + [c];
    }
  }

  /** The value of digits: in lowercase they are the number as it is printed, with noughts in front. */
  lemma {:induction false} DigitsPrinted(d: string)
    requires AllDigits(d) && d != ""
    ensures var x := Reading(NO_VALUE, d);
            x >= 0 && |Hex(x)| <= |d| && LowerAll(d) == Noughts(|d| - |Hex(x)|) + Hex(x)
    decreases |d|
  {
    hide DigitValue, IsDigit, Lower, Digit, Hex, Reading;
    var n := |d| - 1;
    var front, c := d[..n], d[n];
    LowerDigit(c);
    assert d == front + [c] && LowerAll(d) == LowerAll(front) + [Lower(c)];
    if n == 0 {
      OneDigit(c);
      assert d == [c];
      assert LowerAll(d) == Noughts(0) + [Lower(c)];
    } else {
      DigitsPrinted(front);
      ReadingSnoc(NO_VALUE, front, c);
      var y := Reading(NO_VALUE, front);
      HexGrown(y, DigitValue(c));
      if y == 0 {
        HexZero();
        assert LowerAll(d) == Noughts(n) + [Lower(c)];
      } else {
        assert LowerAll(d) == Noughts(n - |Hex(y)|) + (Hex(y) + [Lower(c)]);
      }
    }
  }

  lemma OneDigit(c: char)
    requires IsDigit(c)
    ensures Reading(NO_VALUE, [c]) == DigitValue(c) && Hex(DigitValue(c)) == [Lower(c)]
  {
    LowerDigit(c);
    assert [c][1..] == "";
    assert Reading(DigitValue(c), "") == DigitValue(c);
  }

  lemma HexZero()
    ensures Hex(0) == "0"
  {
  }

  lemma HexGrown(y: nat, v: int)
    requires 0 <= v < 16
    ensures Hex(y * 16 + v) == if y == 0 then [Digit(v)] else Hex(y) + [Digit(v)]
  {
    var x := y * 16 + v;
    assert x / 16 == y && x % 16 == v;
  }

  lemma {:induction false} LowerReads(d: string)
    ensures AllDigits(LowerAll(d)) <==> AllDigits(d)
  {
    hide IsDigit, Lower;
    forall i | 0 <= i < |d| ensures IsDigit(LowerAll(d)[i]) <==> IsDigit(d[i]) {
      LowerDigit(d[i]);
    }
    if AllDigits(LowerAll(d)) {
      assert forall i :: 0 <= i < |d| ==> IsDigit(LowerAll(d)[i]);
    }
  }

  lemma {:induction false} NoughtsRead(k: nat)
    requires k > 0
    ensures AllDigits(Noughts(k)) && Reading(NO_VALUE, Noughts(k)) == 0
  {
    if k == 1 {
      assert Noughts(1)[1..] == "";
      assert Reading(0, "") == 0;
    } else {
      NoughtsRead(k - 1);
      ReadingSnoc(NO_VALUE, Noughts(k - 1), '0');
      assert Noughts(k) == Noughts(k - 1) + ['0'];
    }
  }

  /** A printed number, with noughts in front, has the value that was printed. */
  lemma {:induction false} HexReads(k: nat, x: nat)
    ensures AllDigits(Noughts(k) + Hex(x)) && Reading(NO_VALUE, Noughts(k) + Hex(x)) == x
    decreases x
  {
    hide DigitValue, IsDigit, Digit;
    var c := Digit(x % 16);
    DigitRead(x % 16);
    if x < 16 {
      assert Noughts(k) + Hex(x) == Noughts(k) + [c];
      if k > 0 {
        NoughtsRead(k);
        ReadingSnoc(NO_VALUE, Noughts(k), c);
      } else {
        assert Noughts(0) + [c] == [c] && [c][1..] == "";
        assert Reading(DigitValue(c), "") == DigitValue(c);
      }
    } else {
      var front := Noughts(k) + Hex(x / 16);
      HexReads(k, x / 16);
      ReadingSnoc(NO_VALUE, front, c);
      assert Noughts(k) + Hex(x) == front + [c];
    }
  }

  /**
   What a number means: in lowercase it is the value as the printer writes it, with any number
   of noughts in front.
   */
  lemma {:induction false} NumberExactly(d: string, x: uint16)
    ensures IsNumber(d) && ValueOf(d) == x <==> exists k :: LowerAll(d) == Noughts(k) + Hex(x)
  {
    hide Hex, Reading, IsDigit, Lower;
    if IsNumber(d) && ValueOf(d) == x {
      NumberFront(d);
      DigitsPrinted(d);
    }
    if k :| LowerAll(d) == Noughts(k) + Hex(x) {
      HexReads(k, x);
      LowerReads(d);
      DigitsPrinted(d);
      HexReads(|d| - |Hex(Reading(NO_VALUE, d))|, Reading(NO_VALUE, d));
    }
  }
}
