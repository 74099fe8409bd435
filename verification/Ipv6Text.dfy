/** IPv6 addresses as text: the parser, and the printer of RFC 5952. */
module Ipv6Text {
  import opened Bytes

  type Words = seq<uint16>

  const NO_VALUE: int := -1

  // ----- hexadecimal numbers -----

  function Digit(x: int): char
    requires 0 <= x < 16
  {
    if x < 10 then '0' + x as char else 'a' + (x - 10) as char
  }

  /** The number in lowercase, without leading zeros. */
  function Hex(x: nat): (s: string)
    ensures s != [] && (s[0] == '0' ==> s == "0")
    ensures forall i :: 0 <= i < |s| ==> '0' <= s[i] <= '9' || 'a' <= s[i] <= 'f'
  {
    if x < 16 then [Digit(x)] else Hex(x / 16) + [Digit(x % 16)]
  }

  predicate IsDigit(c: char) {
    '0' <= c <= '9' || 'A' <= c <= 'F' || 'a' <= c <= 'f'
  }

  function DigitValue(c: char): (v: int)
    requires IsDigit(c)
    ensures 0 <= v < 16
  {
    if '0' <= c <= '9' then c as int - '0' as int
    else if 'A' <= c <= 'F' then c as int - 'A' as int + 10
    else c as int - 'a' as int + 10
  }

  lemma DigitRead(x: int)
    requires 0 <= x < 16
    ensures IsDigit(Digit(x)) && DigitValue(Digit(x)) == x
  {
  }

  // ----- printing -----

  /** The words [start, end) are zero. */
  predicate ZeroRun(w: Words, start: int, end: int) {
    0 <= start <= end <= |w| && forall k :: start <= k < end ==> w[k] == 0
  }

  /** The stretch to be written as "::": the first one among the longest runs of at least two zero words, or nothing. */
  ghost predicate BestRun(w: Words, start: nat, end: nat) {
    && ZeroRun(w, start, end) && (end - start >= 2 || (start == 0 && end == 0))
    && (forall i, j :: ZeroRun(w, i, j) && j - i >= 2 ==> j - i <= end - start)
    && (forall i, j :: ZeroRun(w, i, j) && j - i == end - start && j - i >= 2 ==> start <= i)
  }

  /** Numbers with colons between them. */
  function Colons(w: Words): string {
    if w == [] then "" else if |w| == 1 then Hex(w[0]) else Hex(w[0]) + ":" + Colons(w[1..])
  }

  function Text(w: Words, start: nat, end: nat): string
    requires start <= end <= |w|
  {
    if start == end then Colons(w) else Colons(w[..start]) + "::" + Colons(w[end..])
  }

  lemma {:induction false} ColonsSnoc(w: Words, x: uint16)
    ensures Colons(w + [x]) == if w == [] then Hex(x) else Colons(w) + ":" + Hex(x)
  {
    hide Hex, Colons;
    ColonsFront(w + [x]);
    if w != [] {
      ColonsSnoc(w[1..], x);
      ColonsFront(w);
      assert (w + [x])[1..] == w[1..] + [x];
      if |w| > 1 {
        assert Hex(w[0]) + ":" + (Colons(w[1..]) + ":" + Hex(x)) == Colons(w) + ":" + Hex(x);
      }
    }
  }

  lemma {:induction false} ColonsFront(w: Words)
    requires w != []
    ensures Colons(w) == if |w| == 1 then Hex(w[0]) else Hex(w[0]) + ":" + Colons(w[1..])
  {
  }

  /** The first loop of the printer. */
  method FindRun(w: Words) returns (start: nat, end: nat)
    requires |w| == 8
    ensures BestRun(w, start, end)
  {
    start, end := 0, 0;
    var i := 0;
    while i < 8
      invariant 0 <= i <= 8 && ZeroRun(w, start, end) && (end - start >= 2 || (start == 0 && end == 0))
      invariant forall p, q :: ZeroRun(w, p, q) && p < i && q - p >= 2 ==> q - p <= end - start
      invariant forall p, q :: ZeroRun(w, p, q) && p < i && q - p == end - start && q - p >= 2 ==> start <= p
      invariant end - start >= 2 ==> start < i
    {
      var j := i;
      while j < 8 && w[j] == 0
        invariant i <= j <= 8 && ZeroRun(w, i, j)
      {
        j := j + 1;
      }
      assert forall q :: ZeroRun(w, i, q) ==> q <= j;
      if j - i > 1 && j - i > end - start {
        start, end := i, j;
      }
      i := i + 1;
    }
  }

  /** What the second loop has written when it comes to word `i`. */
  function Written(w: Words, start: nat, end: nat, i: nat): string
    requires start <= end <= |w| && i <= |w| && (i <= start || end <= i || start == end)
  {
    if start == end || i <= start then Colons(w[..i])
    else Colons(w[..start]) + ":" + (if i == end then "" else ":" + Colons(w[end..i]))
  }

  /** ipv6AddrToString. */
  method AddrToString(w: Words) returns (str: string)
    requires |w| == 8
    ensures exists start: nat, end: nat :: start <= end <= 8 && BestRun(w, start, end) && str == Text(w, start, end)
  {
    hide BestRun;
    var start, end := FindRun(w);
    assert start <= end <= 8 && (end - start >= 2 || (start == 0 && end == 0)) by {
      RunBounds(w, start, end);
    }
    str := "";
    var i := 0;
    while i < 8
      invariant 0 <= i <= 8 && (i <= start || end <= i || start == end)
      invariant str == Written(w, start, end, i)
    {
      if start <= i < end {
        str := str + ":";
        i := end;
        assert w[..start] == w[..start];
      } else {
        WriteWord(w, start, end, i);
        if i > 0 {
          str := str + ":";
        }
        str := str + Hex(w[i]);
        i := i + 1;
      }
    }
    if end == 8 {
      str := str + ":";
    }
    LastWord(w, start, end);
  }

  lemma RunBounds(w: Words, start: nat, end: nat)
    requires BestRun(w, start, end)
    ensures start <= end <= |w| && (end - start >= 2 || (start == 0 && end == 0))
  {
  }

  lemma WriteWord(w: Words, start: nat, end: nat, i: nat)
    requires start <= end <= |w| && i < |w| && (i < start || end <= i)
    requires end - start >= 2 || (start == 0 && end == 0)
    ensures Written(w, start, end, i + 1) == Written(w, start, end, i) + (if i > 0 then ":" else "") + Hex(w[i])
  {
    hide Hex, Colons;
    EmptyColons([]);
    if start == end || i < start {
      assert w[..i + 1] == w[..i] + [w[i]];
      ColonsSnoc(w[..i], w[i]);
    } else {
      assert w[end..i + 1] == w[end..i] + [w[i]];
      ColonsSnoc(w[end..i], w[i]);
    }
  }

  lemma LastWord(w: Words, start: nat, end: nat)
    requires |w| == 8 && start <= end <= 8 && (end - start >= 2 || (start == 0 && end == 0))
    ensures Written(w, start, end, 8) + (if end == 8 then ":" else "") == Text(w, start, end)
  {
    assert w[..8] == w && w[end..8] == w[end..];
  }

  // ----- parsing -----

  /**
   Where the parser is: `i` words are complete, "::" was seen after `j` of them, `value` is
   the number being read, and `w` holds the words.
   */
  datatype Reader = Reader(i: nat, j: int, value: int, w: Words)

  /** What becomes of a string: an address, an error, or a ninth word to be stored, past the eight that there are. */
  datatype Result = Address(words: Words) | Invalid | PastEnd

  /** The number being read is complete. */
  function Stored(r: Reader): Reader
    requires r.i < |r.w| && 0 <= r.value <= 0xFFFF
  {
    r.(i := r.i + 1, value := NO_VALUE, w := r.w[r.i := r.value])
  }

  predicate GoodReader(r: Reader) {
    |r.w| == 8 && r.i <= 8 && r.j <= r.i && NO_VALUE <= r.value <= 0xFFFF
  }

  /** The words around "::" and zeros between them. */
  function Expanded(w: Words, i: nat, j: nat): Words
    requires j <= i <= 8 && i <= |w|
  {
    w[..j] + seq(8 - i, _ => 0) + w[j..i]
  }

  /** What the parser makes of the rest of the string. */
  function Parse(s: string, r: Reader): Result
    requires GoodReader(r)
  {
    if s == [] then
      if r.i == 7 && r.j < 0 then (if r.value < 0 then Invalid else Address(r.w[..7] + [r.value]))
      else if r.i < 7 && r.j >= 0 then
        var t := if r.value >= 0 then Stored(r) else r;
        Address(Expanded(t.w, t.i, t.j))
      else Invalid
    else if IsDigit(s[0]) then
      var v := (if r.value < 0 then 0 else r.value) * 16 + DigitValue(s[0]);
      if v > 0xFFFF then Invalid else Parse(s[1..], r.(value := v))
    else if s[0] == ':' && |s| > 1 && s[1] == ':' then
      if r.j >= 0 then Invalid
      else if r.value >= 0 && r.i == 8 then PastEnd
      else
        var t := if r.value >= 0 then Stored(r) else r;
        Parse(s[2..], t.(j := t.i))
    else if s[0] == ':' && r.i < 8 then
      if r.value < 0 then Invalid else Parse(s[1..], Stored(r))
    else Invalid
  }

  /** ipv6StringToAddr, up to the point where it stores a ninth word, if it does. */
  method StringToAddr(str: string, w0: Words) returns (w: Result)
    requires |w0| == 8
    ensures w == Parse(str, Reader(0, NO_VALUE, NO_VALUE, w0))
  {
    hide Expanded;
    var i: nat, j: int, value: int, a: Words := 0, NO_VALUE, NO_VALUE, w0;
    var p := 0;
    assert str[0..] == str;
    while true
      invariant p <= |str| && GoodReader(Reader(i, j, value, a))
      invariant Parse(str, Reader(0, NO_VALUE, NO_VALUE, w0)) == Parse(str[p..], Reader(i, j, value, a))
      decreases |str| - p
    {
      ghost var s := str[p..];
      assert |s| > 0 ==> s[0] == str[p] && s[1..] == str[p + 1..];
      assert |s| > 1 ==> s[1] == str[p + 1] && s[2..] == str[p + 2..];
      if p < |str| && IsDigit(str[p]) {
        if value < 0 {
          value := 0;
        }
        value := value * 16 + DigitValue(str[p]);
        if value > 0xFFFF {
          return Invalid;
        }
      } else if p + 1 < |str| && str[p] == ':' && str[p + 1] == ':' {
        if j >= 0 {
          return Invalid;
        }
        if value >= 0 {
          if i == 8 {
            return PastEnd;
          }
          a := a[i := value];
          i := i + 1;
          value := NO_VALUE;
        }
        j := i;
        p := p + 1;
      } else if p < |str| && str[p] == ':' && i < 8 {
        if value < 0 {
          return Invalid;
        }
        a := a[i := value];
        i := i + 1;
        value := NO_VALUE;
      } else if p == |str| && i == 7 && j < 0 {
        if value < 0 {
          return Invalid;
        }
        a := a[i := value];
        assert a == a[..7] + [value];
        return Address(a);
      } else if p == |str| && i < 7 && j >= 0 {
        if value >= 0 {
          a := a[i := value];
          i := i + 1;
        }
        a := Expand(a, i, j);
        return Address(a);
      } else {
        return Invalid;
      }
      p := p + 1;
    }
  }

  /** The two loops that put zeros in the place of "::". */
  method Expand(w0: Words, i: nat, j: nat) returns (a: Words)
    requires |w0| == 8 && j <= i < 8
    ensures a == Expanded(w0, i, j)
  {
    var k: nat;
    a, k := w0, 0;
    while k < i - j
      invariant 0 <= k <= i - j && |a| == 8
      invariant forall n :: 0 <= n <= 7 - k ==> a[n] == w0[n]
      invariant forall n :: 7 - k < n < 8 ==> a[n] == w0[n - 8 + i]
    {
      assert a[i - 1 - k] == w0[i - 1 - k];
      a := a[7 - k := a[i - 1 - k]];
      k := k + 1;
    }
    ghost var b := a;
    k := 0;
    while k < 8 - i
      invariant 0 <= k <= 8 - i && |a| == 8
      invariant forall n :: 0 <= n < 8 ==> a[n] == if j <= n < j + k then 0 else b[n]
    {
      a := a[j + k := 0];
      k := k + 1;
    }
    assert forall n :: 0 <= n < 8 ==> a[n] == Expanded(w0, i, j)[n];
  }

  // ----- parsing what was printed -----

  /** What may follow a number. */
  predicate Ends(s: string) {
    s == [] || s[0] == ':'
  }

  lemma ParseDigit(s: string, r: Reader)
    requires GoodReader(r) && s != [] && IsDigit(s[0])
    requires (if r.value < 0 then 0 else r.value) * 16 + DigitValue(s[0]) <= 0xFFFF
    ensures Parse(s, r) == Parse(s[1..], r.(value := (if r.value < 0 then 0 else r.value) * 16 + DigitValue(s[0])))
  {
    hide DigitValue, IsDigit, Expanded;
  }

  lemma {:induction false} ParseColon(s: string, r: Reader)
    requires GoodReader(r) && r.value >= 0 && r.i < 8 && s != [] && s[0] != ':'
    ensures Parse(":" + s, r) == Parse(s, Stored(r))
  {
    assert (":" + s)[1..] == s;
  }

  lemma ParseGap(s: string, r: Reader)
    requires GoodReader(r) && r.j < 0 && r.i < 8
    ensures var t := if r.value >= 0 then Stored(r) else r;
            Parse("::" + s, r) == Parse(s, t.(j := t.i))
  {
    assert ("::" + s)[2..] == s;
  }

  lemma {:induction false} HexRead(x: nat, s: string, r: Reader)
    requires GoodReader(r) && r.value == NO_VALUE && x <= 0xFFFF
    ensures Parse(Hex(x) + s, r) == Parse(s, r.(value := x))
    decreases x
  {
    hide Parse, Digit, DigitValue, IsDigit;
    DigitRead(x % 16);
    if x < 16 {
      ParseDigit([Digit(x)] + s, r);
      assert ([Digit(x)] + s)[1..] == s;
    } else {
      var d := [Digit(x % 16)];
      HexRead(x / 16, d + s, r);
      assert Hex(x / 16) + (d + s) == Hex(x) + s;
      assert (d + s)[0] == Digit(x % 16) && (d + s)[1..] == s;
      ParseDigit(d + s, r.(value := x / 16));
    }
  }

  /** The reader after the words `v`, of which the last one is still the number being read. */
  function After(r: Reader, v: Words): Reader
    requires GoodReader(r) && v != [] && r.i + |v| <= 8
  {
    r.(i := r.i + |v| - 1, value := v[|v| - 1], w := r.w[..r.i] + v[..|v| - 1] + r.w[r.i + |v| - 1..])
  }

  lemma {:induction false} ColonsRead(v: Words, s: string, r: Reader)
    requires GoodReader(r) && r.value == NO_VALUE && v != [] && r.i + |v| <= 8 && Ends(s)
    ensures Parse(Colons(v) + s, r) == Parse(s, After(r, v))
    decreases |v|
  {
    hide Parse, Hex, After;
    if |v| == 1 {
      HexRead(v[0], s, r);
      AfterFirst(r, v);
    } else {
      var rest := Colons(v[1..]) + s;
      HexRead(v[0], ":" + rest, r);
      assert Hex(v[0]) + (":" + rest) == Colons(v) + s;
      NoColon(v[1..], s);
      ParseColon(rest, r.(value := v[0]));
      AfterFirst(r, v);
      ColonsRead(v[1..], s, Stored(r.(value := v[0])));
    }
  }

  lemma AfterFirst(r: Reader, v: Words)
    requires GoodReader(r) && r.value == NO_VALUE && v != [] && r.i + |v| <= 8
    ensures |v| == 1 ==> After(r, v) == r.(value := v[0])
    ensures |v| > 1 ==> After(Stored(r.(value := v[0])), v[1..]) == After(r, v)
  {
    if |v| == 1 {
      assert r.w[..r.i] + [] + r.w[r.i..] == r.w;
    } else {
      assert After(Stored(r.(value := v[0])), v[1..]).w == After(r, v).w;
    }
  }

  lemma {:induction false} NoColon(v: Words, s: string)
    requires v != []
    ensures Colons(v) + s != [] && (Colons(v) + s)[0] != ':'
  {
    assert (Colons(v) + s)[0] == Hex(v[0])[0];
  }

  /** Reading "::" and what follows it. */
  lemma GapRead(v: Words, r: Reader)
    requires GoodReader(r) && r.j < 0 && r.i + (if r.value >= 0 then 1 else 0) + |v| <= 6
    ensures var t := if r.value >= 0 then Stored(r) else r;
            Parse("::" + Colons(v), r) == Address(t.w[..t.i] + seq(8 - t.i - |v|, _ => 0) + v)
  {
    hide Parse, Colons;
    var t := if r.value >= 0 then Stored(r) else r;
    var u := t.(j := t.i);
    ParseGap(Colons(v), r);
    if v != [] {
      ColonsRead(v, [], u);
      assert Colons(v) + [] == Colons(v);
      var x := Stored(After(u, v));
      GapEnd(After(u, v));
      assert x.w[..u.j] == t.w[..t.i] && x.w[u.j..x.i] == v;
    } else {
      EmptyColons(v);
      GapEnd(u);
      assert t.w[..t.i] + seq(8 - t.i, _ => 0) + t.w[t.i..t.i] == t.w[..t.i] + seq(8 - t.i, _ => 0) + [];
    }
  }

  lemma GapEnd(r: Reader)
    requires GoodReader(r) && r.i < 7 && r.j >= 0
    ensures var t := if r.value >= 0 then Stored(r) else r;
            Parse([], r) == Address(Expanded(t.w, t.i, t.j))
  {
  }

  /** Parsing the printed form of an address gives it back. */
  lemma RoundTrip(w: Words, start: nat, end: nat, w0: Words)
    requires |w| == 8 && |w0| == 8 && BestRun(w, start, end)
    ensures Parse(Text(w, start, end), Reader(0, NO_VALUE, NO_VALUE, w0)) == Address(w)
  {
    hide Parse, Colons;
    var r := Reader(0, NO_VALUE, NO_VALUE, w0);
    if start == end {
      ColonsRead(w, [], r);
      assert Colons(w) + [] == Colons(w);
      LastRead(After(r, w));
      assert After(r, w).w[..7] == w[..7];
      assert w[..7] + [w[7]] == w;
    } else {
      var zeros := seq(end - start, _ => 0);
      assert w == w[..start] + zeros + w[end..];
      if start == 0 {
        EmptyColons(w[..0]);
        GapRead(w[end..], r);
        assert "" + "::" + Colons(w[end..]) == "::" + Colons(w[end..]);
      } else {
        var v := w[..start];
        var s := "::" + Colons(w[end..]);
        ColonsRead(v, s, r);
        assert Colons(v) + s == Text(w, start, end);
        GapRead(w[end..], After(r, v));
        assert Stored(After(r, v)).w[..start] == v;
      }
    }
  }

  lemma {:induction false} LastRead(r: Reader)
    requires GoodReader(r) && r.i == 7 && r.j < 0 && r.value >= 0
    ensures Parse([], r) == Address(r.w[..7] + [r.value])
  {
  }

  lemma {:induction false} EmptyColons(w: Words)
    requires w == []
    ensures Colons(w) == ""
  {
  }

  // ----- strings that make the parser store a ninth word -----

  /** The value of a number that goes on with the digits `d`; a new number has no value yet. */
  function Reading(value: int, d: string): int
    requires forall k :: 0 <= k < |d| ==> IsDigit(d[k])
    decreases |d|
  {
    if d == "" then value else Reading((if value < 0 then 0 else value) * 16 + DigitValue(d[0]), d[1..])
  }

  /** The digits complete a 16-bit number. */
  predicate Completes(value: int, d: string) {
    (forall k :: 0 <= k < |d| ==> IsDigit(d[k])) && 0 <= Reading(value, d) <= 0xFFFF
  }

  /**
   The string starts with `n` numbers with single colons between them, and "::" behind the last.
   The first one has already begun if it has a value.
   */
  ghost predicate Numbers(s: string, n: nat, value: int)
    decreases n
  {
    exists d: nat :: d <= |s| && Completes(value, s[..d]) && Separated(s[d..], n)
  }

  ghost predicate Separated(s: string, n: nat)
    decreases n, 0
  {
    s != "" && s[0] == ':' && n > 0 && if n == 1 then |s| > 1 && s[1] == ':' else Numbers(s[1..], n - 1, NO_VALUE)
  }

  lemma {:induction false} ReadingGrows(value: int, d: string)
    requires value >= 0 && forall k :: 0 <= k < |d| ==> IsDigit(d[k])
    ensures Reading(value, d) >= value
    decreases |d|
  {
    if d != "" {
      ReadingGrows(value * 16 + DigitValue(d[0]), d[1..]);
    }
  }

  lemma CompletesDigit(s: string, d: nat, value: int)
    requires d < |s| && IsDigit(s[0])
    ensures var v := (if value < 0 then 0 else value) * 16 + DigitValue(s[0]);
            Completes(value, s[..d + 1]) <==> v <= 0xFFFF && Completes(v, s[1..][..d])
  {
    hide DigitValue, IsDigit;
    var a, b := s[..d + 1], s[1..][..d];
    assert a[0] == s[0] && a[1..] == b;
    if forall k :: 0 <= k < |b| ==> IsDigit(b[k]) {
      forall k | 0 <= k < |a| ensures IsDigit(a[k]) {
        assert k > 0 ==> a[k] == b[k - 1];
      }
      ReadingGrows((if value < 0 then 0 else value) * 16 + DigitValue(s[0]), b);
    }
  }

  /** A digit goes to the first number. */
  lemma NumbersDigit(s: string, n: nat, value: int)
    requires s != "" && IsDigit(s[0])
    ensures var v := (if value < 0 then 0 else value) * 16 + DigitValue(s[0]);
            Numbers(s, n, value) <==> v <= 0xFFFF && Numbers(s[1..], n, v)
  {
    hide Separated, DigitValue, IsDigit, Completes;
    var v, t := (if value < 0 then 0 else value) * 16 + DigitValue(s[0]), s[1..];
    if Numbers(s, n, value) {
      var d: nat :| d <= |s| && Completes(value, s[..d]) && Separated(s[d..], n);
      if d == 0 {
        NoDigit(s[0..], n);
      } else {
        CompletesDigit(s, d - 1, value);
        assert s[d..] == t[d - 1..];
      }
    }
    if v <= 0xFFFF && Numbers(t, n, v) {
      var d: nat :| d <= |t| && Completes(v, t[..d]) && Separated(t[d..], n);
      CompletesDigit(s, d, value);
      assert s[d + 1..] == t[d..];
    }
  }

  lemma {:induction false} NoDigit(s: string, n: nat)
    requires Separated(s, n)
    ensures s != "" && !IsDigit(s[0])
  {
  }

  /** Without a digit in front, the first number has to be complete. */
  lemma {:induction false} NumbersOther(s: string, n: nat, value: int)
    requires s == "" || !IsDigit(s[0])
    ensures Numbers(s, n, value) <==> 0 <= value <= 0xFFFF && Separated(s, n)
  {
    hide Separated;
    assert s[0..] == s && s[..0] == "";
    assert forall d: nat | 0 < d <= |s| :: s[..d][0] == s[0];
    if 0 <= value <= 0xFFFF && Separated(s, n) {
      assert Completes(value, s[..0]) && Separated(s[0..], n);
    }
  }

  /** Behind "::" no number is stored past the end. */
  lemma {:induction false} StaysInside(s: string, r: Reader)
    requires GoodReader(r) && r.j >= 0
    ensures Parse(s, r) != PastEnd
    decreases |s|
  {
    hide DigitValue, IsDigit, Expanded;
    if s != "" {
      if IsDigit(s[0]) {
        var v := (if r.value < 0 then 0 else r.value) * 16 + DigitValue(s[0]);
        if v <= 0xFFFF {
          StaysInside(s[1..], r.(value := v));
        }
      } else if s[0] == ':' && r.i < 8 && r.value >= 0 {
        StaysInside(s[1..], Stored(r));
      }
    }
  }

  lemma {:induction false} PastEndFrom(s: string, r: Reader)
    requires GoodReader(r) && r.j < 0
    ensures Parse(s, r) == PastEnd <==> Numbers(s, 9 - r.i, r.value)
    decreases |s|
  {
    hide DigitValue, Expanded, Numbers;
    if s != "" && IsDigit(s[0]) {
      var v := (if r.value < 0 then 0 else r.value) * 16 + DigitValue(s[0]);
      NumbersDigit(s, 9 - r.i, r.value);
      if v <= 0xFFFF {
        PastEndFrom(s[1..], r.(value := v));
      }
    } else {
      NumbersOther(s, 9 - r.i, r.value);
      if s != "" && s[0] == ':' {
        if |s| > 1 && s[1] == ':' {
          NumbersOther(s[1..], 8 - r.i, NO_VALUE);
          if !(r.value >= 0 && r.i == 8) {
            var t := if r.value >= 0 then Stored(r) else r;
            StaysInside(s[2..], t.(j := t.i));
          }
        } else if r.i < 8 && r.value >= 0 {
          PastEndFrom(s[1..], Stored(r));
        }
      }
    }
  }

  /**
   Which strings make the parser store a word past the end of the address, for example
   "1:2:3:4:5:6:7:8:9::": exactly those that start with nine 16-bit numbers, with single
   colons between them and "::" behind the ninth.
   */
  lemma {:induction false} PastEndExactly(str: string, w0: Words)
    requires |w0| == 8
    ensures Parse(str, Reader(0, NO_VALUE, NO_VALUE, w0)) == PastEnd <==> Numbers(str, 9, NO_VALUE)
  {
    hide Parse, Numbers;
    PastEndFrom(str, Reader(0, NO_VALUE, NO_VALUE, w0));
  }

  /** Such strings exist: nine words as the printer writes them, and "::". */
  lemma {:induction false} NinthWord(v: Words, x: uint16, rest: string, w0: Words)
    requires |v| == 8 && |w0| == 8
    ensures Parse(Colons(v) + ":" + Hex(x) + "::" + rest, Reader(0, NO_VALUE, NO_VALUE, w0)) == PastEnd
  {
    hide Parse, Colons, Hex, After;
    var r, s := Reader(0, NO_VALUE, NO_VALUE, w0), Hex(x) + ("::" + rest);
    ColonsRead(v, ":" + s, r);
    assert Colons(v) + (":" + s) == Colons(v) + ":" + Hex(x) + "::" + rest;
    AfterAll(r, v);
    assert s[0] == Hex(x)[0];
    ParseColon(s, After(r, v));
    var t := Stored(After(r, v));
    HexRead(x, "::" + rest, t);
    ParseNinth(rest, t.(value := x));
  }

  lemma AfterAll(r: Reader, v: Words)
    requires GoodReader(r) && r.i == 0 && r.j < 0 && |v| == 8
    ensures var t := After(r, v); GoodReader(t) && t.i == 7 && t.j < 0 && t.value >= 0
  {
  }

  lemma {:induction false} ParseNinth(rest: string, r: Reader)
    requires GoodReader(r) && r.i == 8 && r.j < 0 && r.value >= 0
    ensures Parse("::" + rest, r) == PastEnd
  {
  }
}
