/** DNS names: section 3.1 of RFC 1035, and the compression of section 4.1.4. */
module DnsNames {
  import opened Bytes

  const MAX_RECURSION: int := 4
  const LABEL_MAX: int := 63
  const COMPRESSION_TAG: int := 0xC0
  const DOT: byte := 46

  type Label = seq<byte>

  // ----- names as text -----

  /** A name with its labels separated by dots. */
  function Dotted(ls: seq<Label>): seq<byte> {
    if ls == [] then [] else if |ls| == 1 then ls[0] else ls[0] + [DOT] + Dotted(ls[1..])
  }

  /** The parts of a text between its dots. */
  function Split(s: seq<byte>): (ls: seq<Label>)
    ensures |ls| > 0
  {
    if s == [] then [[]]
    else if s[0] == DOT then [[]] + Split(s[1..])
    else Prepend([s[0]], Split(s[1..]))
  }

  /** The first label gets `l` in front. */
  function Prepend(l: Label, ls: seq<Label>): (r: seq<Label>)
    requires |ls| > 0
    ensures |r| == |ls|
  {
    [l + ls[0]] + ls[1..]
  }

  /** Labels that the encoder accepts. */
  predicate Encodable(ls: seq<Label>) {
    forall i :: 0 <= i < |ls| ==> 1 <= |ls[i]| <= LABEL_MAX
  }

  lemma {:induction false} DottedSplit(s: seq<byte>)
    ensures Dotted(Split(s)) == s
  {
    if s != [] {
      DottedSplit(s[1..]);
      var ls := Split(s[1..]);
      if s[0] == DOT {
        assert Split(s)[1..] == ls;
      } else {
        assert Split(s)[1..] == ls[1..];
      }
    }
  }

  lemma PrependTwice(a: Label, b: Label, ls: seq<Label>)
    requires |ls| > 0
    ensures Prepend(a, Prepend(b, ls)) == Prepend(a + b, ls) && Prepend([], ls) == ls
  {
    assert a + (b + ls[0]) == a + b + ls[0];
    assert [] + ls[0] == ls[0];
  }

  lemma {:induction false} PrependDot(l: Label, s: seq<byte>)
    ensures Prepend(l, Split([DOT] + s)) == [l] + Split(s)
  {
    assert ([DOT] + s)[1..] == s;
    assert ([[]] + Split(s))[1..] == Split(s);
    assert l + [] == l;
  }

  // ----- encoding -----

  function Encoded(ls: seq<Label>): seq<byte>
    requires Encodable(ls)
  {
    if ls == [] then [0] else [|ls[0]|] + ls[0] + Encoded(ls[1..])
  }

  /** The lengths and labels, without the end marker. */
  function Lengths(ls: seq<Label>): seq<byte>
    requires Encodable(ls)
  {
    if ls == [] then [] else Lengths(ls[..|ls| - 1]) + [|ls[|ls| - 1]|] + ls[|ls| - 1]
  }

  lemma {:induction false} EncodedLengths(ls: seq<Label>, rest: seq<Label>)
    requires Encodable(ls) && Encodable(rest)
    ensures Encodable(ls + rest) && Encoded(ls + rest) == Lengths(ls) + Encoded(rest)
  {
    hide Encoded, Lengths;
    LengthsLast(ls);
    if ls == [] {
      assert ls + rest == rest;
    } else {
      var n := |ls| - 1;
      EncodedLengths(ls[..n], [ls[n]] + rest);
      EncodedFront([ls[n]] + rest);
      assert ls[..n] + ([ls[n]] + rest) == ls + rest;
      assert ([ls[n]] + rest)[1..] == rest;
      assert Lengths(ls[..n]) + ([|ls[n]|] + ls[n] + Encoded(rest)) == Lengths(ls) + Encoded(rest);
    }
  }

  lemma {:induction false} LengthsLast(ls: seq<Label>)
    requires Encodable(ls)
    ensures ls == [] ==> Lengths(ls) == []
    ensures ls != [] ==> Lengths(ls) == Lengths(ls[..|ls| - 1]) + [|ls[|ls| - 1]|] + ls[|ls| - 1]
  {
  }

  /** dnsEncodeName, on a string without its terminator: nothing when a label is empty or too long. */
  method EncodeName(src: seq<byte>) returns (dest: seq<byte>, length: nat)
    requires 0 !in src
    ensures length == if Encodable(Split(src)) then |Encoded(Split(src))| else 0
    ensures Encodable(Split(src)) ==> dest == Encoded(Split(src))
  {
    hide Split, Prepend, Encoded;
    ghost var done: seq<Label> := [];
    var p, i := 0, 0;
    dest, length := [], 0;
    assert src[0..] == src && src[0..0] == [];
    PrependTwice([], [], Split(src));
    assert [] + Split(src) == Split(src);
    while p + i < |src|
      invariant p + i <= |src| && DOT !in src[p..p + i] && Encodable(done)
      invariant Split(src) == done + Prepend(src[p..p + i], Split(src[p + i..]))
      invariant dest == Lengths(done) && length == |dest|
      decreases |src| - p - i
    {
      ghost var l, rest := src[p..p + i], src[p + i + 1..];
      assert src[p + i..] == [src[p + i]] + rest;
      if src[p + i] == DOT {
        PrependDot(l, rest);
        SplitAt(Split(src), done, l, Split(rest));
        if i < 1 || i > LABEL_MAX {
          return dest, 0;
        }
        dest := dest + [i] + src[p..p + i];
        length := length + i + 1;
        assert (done + [l])[..|done|] == done;
        done := done + [l];
        p := p + i + 1;
        i := 0;
        PrependTwice([], [], Split(rest));
      } else {
        SplitChar(src[p + i], rest);
        PrependTwice(l, [src[p + i]], Split(rest));
        assert src[p..p + i + 1] == l + [src[p + i]];
        i := i + 1;
      }
    }
    ghost var l := src[p..p + i];
    SplitEnd(l);
    SplitAt(Split(src), done, l, []);
    if i < 1 || i > LABEL_MAX {
      return dest, 0;
    }
    EncodedLengths(done, [l]);
    EncodedLast(l);
    dest := dest + ([i] + src[p..p + i] + [0]);
    length := length + i + 2;
  }

  lemma {:induction false} SplitChar(c: byte, s: seq<byte>)
    requires c != DOT
    ensures Split([c] + s) == Prepend([c], Split(s))
  {
    assert ([c] + s)[1..] == s;
  }

  lemma SplitEnd(l: Label)
    ensures Prepend(l, Split([])) == [l]
  {
    assert l + [] == l;
  }

  /** One label among the others. */
  lemma SplitAt(all: seq<Label>, done: seq<Label>, l: Label, rest: seq<Label>)
    requires all == done + ([l] + rest)
    ensures !(1 <= |l| <= LABEL_MAX) ==> !Encodable(all)
    ensures all == (done + [l]) + rest
  {
    assert all[|done|] == l;
  }

  lemma EncodedLast(l: Label)
    requires Encodable([l])
    ensures Encoded([l]) == [|l|] + l + [0]
  {
    var ls := [l];
    assert ls[1..] == [];
  }

  // ----- decoding -----

  /** The labels of a name, whether a dot is written after the last of them, and the position after the name. */
  datatype Name = Name(labels: seq<Label>, dot: bool, next: nat) {
    /** The text that the parser produces. */
    function Text(): seq<byte> {
      Dotted(labels) + if dot then [DOT] else []
    }
  }

  function Pointer(message: seq<byte>, pos: nat): nat
    requires pos + 1 < |message| && message[pos] >= COMPRESSION_TAG
  {
    (message[pos] - COMPRESSION_TAG) * 0x100 + message[pos + 1]
  }

  /** What dnsParseName accepts; it follows pointers through at most four levels, so that it always ends. */
  function Parse(message: seq<byte>, pos: nat, level: nat): (r: Option<Name>)
    ensures r.Some? ==> pos < r.value.next <= |message| && Encodable(r.value.labels)
    decreases MAX_RECURSION - level, |message| - pos
  {
    if level >= MAX_RECURSION || pos >= |message| then None
    else if message[pos] == 0 then Some(Name([], false, pos + 1))
    else if message[pos] >= COMPRESSION_TAG then
      if pos + 1 >= |message| then None
      else
        var r := Parse(message, Pointer(message, pos), level + 1);
        if r.None? then None else Some(r.value.(next := pos + 2))
    else if message[pos] < LABEL_MAX then
      var end := pos + 1 + message[pos];
      if end > |message| then None
      else
        var r := Parse(message, end, level);
        if r.None? then None
        else
          var rest := r.value;
          Some(Name([message[pos + 1..end]] + rest.labels, if rest.labels == [] then message[end] != 0 else rest.dot, rest.next))
    else None
  }

  lemma {:induction false} DottedCons(l: Label, ls: seq<Label>)
    ensures Dotted([l] + ls) == if ls == [] then l else l + [DOT] + Dotted(ls)
  {
    assert ([l] + ls)[1..] == ls;
  }

  /** The cases of the parser at one position. */
  lemma ParseCases(message: seq<byte>, pos: nat, level: nat)
    requires level < MAX_RECURSION && pos < |message|
    ensures var r, b := Parse(message, pos, level), message[pos];
            && (b == 0 ==> r == Some(Name([], false, pos + 1)))
            && (b >= COMPRESSION_TAG && pos + 1 >= |message| ==> r.None?)
            && (b >= COMPRESSION_TAG && pos + 1 < |message| ==>
                  var s := Parse(message, Pointer(message, pos), level + 1);
                  r == if s.None? then None else Some(s.value.(next := pos + 2)))
            && (LABEL_MAX <= b < COMPRESSION_TAG ==> r.None?)
            && (0 < b < LABEL_MAX && pos + 1 + b > |message| ==> r.None?)
  {
  }

  /** A separator is written unless the end marker follows; a dot stays last only after a pointer to an empty name. */
  lemma TextStep(message: seq<byte>, pos: nat, level: nat)
    requires level < MAX_RECURSION && pos < |message| && 0 < message[pos] < LABEL_MAX && pos + 1 + message[pos] <= |message|
    ensures var end := pos + 1 + message[pos];
            var all, rest := Parse(message, pos, level), Parse(message, end, level);
            && (all.Some? <==> rest.Some?)
            && (all.Some? ==>
                  && end < |message| && all.value.next == rest.value.next
                  && all.value.Text()
                     == message[pos + 1..end] + (if message[end] != 0 then [DOT] else []) + rest.value.Text())
  {
    hide Parse, Dotted;
    var end := pos + 1 + message[pos];
    LabelCase(message, pos, level);
    DottedEmpty([]);
    if Parse(message, end, level).Some? {
      var rest := Parse(message, end, level).value;
      DottedCons(message[pos + 1..end], rest.labels);
      EmptyHasNoDot(message, end, level);
      ParseCases(message, end, level);
    }
  }

  lemma {:induction false} EmptyHasNoDot(message: seq<byte>, pos: nat, level: nat)
    ensures Parse(message, pos, level).Some? && Parse(message, pos, level).value.labels == [] ==>
              !Parse(message, pos, level).value.dot
    decreases MAX_RECURSION - level, |message| - pos
  {
    if level < MAX_RECURSION && pos + 1 < |message| && message[pos] >= COMPRESSION_TAG {
      EmptyHasNoDot(message, Pointer(message, pos), level + 1);
    }
  }

  /** dnsParseName: position 0 when the name cannot be decoded. */
  method ParseName(message: seq<byte>, start: nat, level: nat) returns (next: nat, dest: seq<byte>)
    ensures next == if Parse(message, start, level).Some? then Parse(message, start, level).value.next else 0
    ensures next != 0 ==> dest == Parse(message, start, level).value.Text()
    decreases MAX_RECURSION - level
  {
    hide Pointer, Parse, Name.Text;
    dest := [];
    if level >= MAX_RECURSION {
      TooDeep(message, start, level);
      return 0, dest;
    }
    var pos := start;
    EmptyText(message, start, level);
    while pos < |message|
      invariant start <= pos
      invariant Parse(message, start, level).Some? <==> Parse(message, pos, level).Some?
      invariant Parse(message, start, level).Some? ==>
                  && Parse(message, start, level).value.next == Parse(message, pos, level).value.next
                  && Parse(message, start, level).value.Text() == dest + Parse(message, pos, level).value.Text()
      decreases |message| - pos
    {
      ParseCases(message, pos, level);
      EmptyText(message, pos, level);
      if message[pos] == 0 {
        return pos + 1, dest;
      } else if message[pos] >= COMPRESSION_TAG {
        if pos + 1 >= |message| {
          return 0, dest;
        }
        SameText(message, Pointer(message, pos), level + 1, pos + 2);
        var n, rest := ParseName(message, Pointer(message, pos), level + 1);
        if n == 0 {
          return 0, dest;
        }
        return pos + 2, dest + rest;
      } else if message[pos] < LABEL_MAX {
        var end := pos + 1 + message[pos];
        if end > |message| {
          return 0, dest;
        }
        TextStep(message, pos, level);
        ghost var before := dest;
        dest := dest + message[pos + 1..end];
        if end < |message| && message[end] != 0 {
          dest := dest + [DOT];
        }
        if Parse(message, end, level).Some? {
          Regroup(before, message[pos + 1..end], if message[end] != 0 then [DOT] else [],
                  Parse(message, end, level).value.Text());
        }
        pos := end;
      } else {
        return 0, dest;
      }
    }
    PastTheEnd(message, pos, level);
    return 0, dest;
  }

  lemma {:induction false} TooDeep(message: seq<byte>, pos: nat, level: nat)
    requires level >= MAX_RECURSION
    ensures Parse(message, pos, level).None?
  {
  }

  lemma {:induction false} PastTheEnd(message: seq<byte>, pos: nat, level: nat)
    requires pos >= |message|
    ensures Parse(message, pos, level).None?
  {
  }

  lemma {:induction false} EmptyText(message: seq<byte>, pos: nat, level: nat)
    ensures Parse(message, pos, level).Some? ==> [] + Parse(message, pos, level).value.Text() == Parse(message, pos, level).value.Text()
    ensures forall n: nat :: Name([], false, n).Text() == []
  {
  }

  lemma {:induction false} SameText(message: seq<byte>, pos: nat, level: nat, next: nat)
    ensures Parse(message, pos, level).Some? ==>
              Parse(message, pos, level).value.(next := next).Text() == Parse(message, pos, level).value.Text()
  {
  }

  lemma Regroup(a: seq<byte>, b: seq<byte>, c: seq<byte>, d: seq<byte>)
    ensures a + (b + c + d) == a + b + c + d
    ensures c == [] ==> a + (b + c + d) == a + b + d
  {
  }

  // ----- round trip -----

  /** The parser takes labels that are shorter than the encoder's limit. */
  predicate Parsable(ls: seq<Label>) {
    forall i :: 0 <= i < |ls| ==> 1 <= |ls[i]| < LABEL_MAX
  }

  lemma {:induction false} ParseEncoded(before: seq<byte>, ls: seq<Label>, after: seq<byte>, level: nat)
    requires Encodable(ls) && level < MAX_RECURSION
    ensures var r := Parse(before + Encoded(ls) + after, |before|, level);
            && (r.Some? <==> Parsable(ls))
            && (r.Some? ==> r.value == Name(ls, false, |before| + |Encoded(ls)|))
    decreases |ls|
  {
    hide Parse, Encoded;
    var message := before + Encoded(ls) + after;
    EncodedFront(ls);
    assert message[|before|] == Encoded(ls)[0];
    ParseCases(message, |before|, level);
    if ls != [] {
      var l, front := ls[0], before + [|ls[0]|] + ls[0];
      EncodedFront(ls[1..]);
      assert front + Encoded(ls[1..]) + after == message;
      assert message[|before| + 1..|before| + 1 + |l|] == l;
      assert message[|front|] == Encoded(ls[1..])[0];
      ParseEncoded(front, ls[1..], after, level);
      if |l| < LABEL_MAX {
        LabelCase(message, |before|, level);
      }
      assert [l] + ls[1..] == ls;
    }
  }

  lemma {:induction false} EncodedFront(ls: seq<Label>)
    requires Encodable(ls)
    ensures |Encoded(ls)| > 0
    ensures ls == [] ==> Encoded(ls) == [0]
    ensures ls != [] ==> Encoded(ls) == [|ls[0]|] + ls[0] + Encoded(ls[1..])
  {
  }

  /** The parser on a label that is not too long. */
  lemma LabelCase(message: seq<byte>, pos: nat, level: nat)
    requires level < MAX_RECURSION && pos < |message| && 0 < message[pos] < LABEL_MAX && pos + 1 + message[pos] <= |message|
    ensures var end := pos + 1 + message[pos];
            var all, rest := Parse(message, pos, level), Parse(message, end, level);
            && (all.Some? <==> rest.Some?)
            && (all.Some? ==>
                  && end < |message| && all.value.next == rest.value.next
                  && all.value.labels == [message[pos + 1..end]] + rest.value.labels
                  && all.value.dot == if rest.value.labels == [] then message[end] != 0 else rest.value.dot)
  {
  }

  /**
   Decoding an encoded name, anywhere in a message, gives it back with the position just
   past it, exactly when no label has the full 63 bytes: the encoder takes these, the parser
   does not.
   */
  lemma {:induction false} RoundTrip(before: seq<byte>, src: seq<byte>, after: seq<byte>)
    requires 0 !in src && Encodable(Split(src))
    ensures var code := Encoded(Split(src));
            var r := Parse(before + code + after, |before|, 0);
            && (r.Some? <==> forall i :: 0 <= i < |Split(src)| ==> |Split(src)[i]| < LABEL_MAX)
            && (r.Some? ==> r.value.Text() == src && r.value.next == |before| + |code|)
  {
    ParseEncoded(before, Split(src), after, 0);
    DottedSplit(src);
    assert src + [] == src;
  }

  // ----- comparing -----

  /** Letters without their case. */
  function Fold(c: byte): byte {
    if 65 <= c <= 90 then c + 32 else c
  }

  function FoldAll(s: seq<byte>): (r: seq<byte>)
    ensures |r| == |s| && forall i :: 0 <= i < |s| ==> r[i] == Fold(s[i])
  {
    seq(|s|, i requires 0 <= i < |s| => Fold(s[i]))
  }

  /** The character at the front of a string: its terminator when it is empty. */
  function FirstChar(name: seq<byte>): byte {
    if name == [] then 0 else name[0]
  }

  /** strncasecmp on a label and a string. */
  function CompareLabel(l: Label, name: seq<byte>): int {
    if l == [] then 0
    else if Fold(l[0]) != Fold(FirstChar(name)) then Fold(l[0]) - Fold(FirstChar(name))
    else if l[0] == 0 then 0
    else CompareLabel(l[1..], name[1..])
  }

  lemma {:induction false} LabelMatches(l: Label, name: seq<byte>)
    requires 0 !in l
    ensures CompareLabel(l, name) == 0 <==> |l| <= |name| && FoldAll(l) == FoldAll(name[..|l|])
  {
    if l != [] && name != [] {
      LabelMatches(l[1..], name[1..]);
      if CompareLabel(l, name) == 0 {
        forall i | 0 <= i < |l| ensures Fold(l[i]) == Fold(name[i]) {
          if i > 0 {
            assert FoldAll(l[1..])[i - 1] == FoldAll(name[1..][..|l| - 1])[i - 1];
          }
        }
      }
      if |l| <= |name| && FoldAll(l) == FoldAll(name[..|l|]) {
        assert FoldAll(l)[0] == FoldAll(name[..|l|])[0];
        forall i | 0 <= i < |l| - 1 ensures Fold(l[1..][i]) == Fold(name[1..][i]) {
          assert FoldAll(l)[i + 1] == FoldAll(name[..|l|])[i + 1];
        }
        assert FoldAll(l[1..]) == FoldAll(name[1..][..|l| - 1]);
      }
    }
  }

  /** What is left of the string after a label and the separator behind it. */
  function AfterLabel(name: seq<byte>, n: nat): seq<byte>
    requires n <= |name|
  {
    if n < |name| && name[n] == DOT then name[n + 1..] else name[n..]
  }

  /**
   dnsCompareName. There is no result when the code moves past the end of the string, which
   a label with a NUL character can make it do.
   */
  function Compare(message: seq<byte>, pos: nat, name: seq<byte>, level: nat): Option<int>
    decreases MAX_RECURSION - level, |message| - pos
  {
    if level >= MAX_RECURSION || pos >= |message| then Some(-2)
    else if message[pos] == 0 then Some(if name != [] then -1 else 0)
    else if message[pos] >= COMPRESSION_TAG then
      if pos + 1 >= |message| then Some(0) else Compare(message, Pointer(message, pos), name, level + 1)
    else
      var end := pos + 1 + message[pos];
      if end > |message| then Some(-2)
      else
        var res := CompareLabel(message[pos + 1..end], name);
        if res != 0 then Some(res)
        else if message[pos] > |name| then None
        else if message[pos] < |name| && name[message[pos]] != DOT then Some(-1)
        else Compare(message, end, AfterLabel(name, message[pos]), level)
  }

  method CompareName(message: seq<byte>, start: nat, candidate: seq<byte>, level: nat) returns (res: Option<int>)
    ensures res == Compare(message, start, candidate, level)
    decreases MAX_RECURSION - level
  {
    hide Pointer, CompareLabel;
    if level >= MAX_RECURSION {
      return Some(-2);
    }
    var pos, name := start, candidate;
    while pos < |message|
      invariant Compare(message, start, candidate, level) == Compare(message, pos, name, level)
      decreases |message| - pos
    {
      var n := message[pos];
      if n == 0 {
        return Some(if name != [] then -1 else 0);
      } else if n >= COMPRESSION_TAG {
        if pos + 1 >= |message| {
          return Some(0);
        }
        res := CompareName(message, Pointer(message, pos), name, level + 1);
        return;
      } else {
        pos := pos + 1;
        if pos + n > |message| {
          return Some(-2);
        }
        var mismatch := CompareLabel(message[pos..pos + n], name);
        if mismatch != 0 {
          return Some(mismatch);
        }
        pos := pos + n;
        if n > |name| {
          return None;
        }
        if n < |name| && name[n] != DOT {
          return Some(-1);
        }
        name := AfterLabel(name, n);
      }
    }
    return Some(-2);
  }

  // ----- comparing is right -----

  /** The labels that the comparison goes through, and whether they end in a pointer of which one byte is missing. */
  datatype Raw = Raw(labels: seq<Label>, cut: bool)

  function ReadLabels(message: seq<byte>, pos: nat, level: nat): Option<Raw>
    decreases MAX_RECURSION - level, |message| - pos
  {
    if level >= MAX_RECURSION || pos >= |message| then None
    else if message[pos] == 0 then Some(Raw([], false))
    else if message[pos] >= COMPRESSION_TAG then
      if pos + 1 >= |message| then Some(Raw([], true)) else ReadLabels(message, Pointer(message, pos), level + 1)
    else
      var end := pos + 1 + message[pos];
      if end > |message| then None
      else
        var r := ReadLabels(message, end, level);
        if r.None? then None else Some(r.value.(labels := [message[pos + 1..end]] + r.value.labels))
  }

  /** A name that the parser accepts has the labels that the comparison goes through. */
  lemma {:induction false} ParsedLabels(message: seq<byte>, pos: nat, level: nat)
    requires Parse(message, pos, level).Some?
    ensures ReadLabels(message, pos, level) == Some(Raw(Parse(message, pos, level).value.labels, false))
    decreases MAX_RECURSION - level, |message| - pos
  {
    hide Pointer;
    if message[pos] >= COMPRESSION_TAG {
      ParsedLabels(message, Pointer(message, pos), level + 1);
    } else if message[pos] != 0 {
      ParsedLabels(message, pos + 1 + message[pos], level);
    }
  }

  /** The text is the name but for case; a dot after the last label makes no difference. */
  predicate IsName(text: seq<byte>, ls: seq<Label>) {
    FoldAll(text) == FoldAll(Dotted(ls)) || (ls != [] && FoldAll(text) == FoldAll(Dotted(ls) + [DOT]))
  }

  /** The text starts with the labels, but for case. */
  predicate StartsWith(text: seq<byte>, ls: seq<Label>) {
    ls == [] || FoldAll(text) == FoldAll(Dotted(ls))
    || (|text| > |Dotted(ls)| && FoldAll(text[..|Dotted(ls)| + 1]) == FoldAll(Dotted(ls) + [DOT]))
  }

  predicate Agrees(text: seq<byte>, r: Raw) {
    if r.cut then StartsWith(text, r.labels) else IsName(text, r.labels)
  }

  /** What is left to agree after the first label. */
  predicate Remains(text: seq<byte>, l: Label, rest: Raw) {
    |l| <= |text| && FoldAll(l) == FoldAll(text[..|l|]) && (|l| == |text| || text[|l|] == DOT)
    && Agrees(AfterLabel(text, |l|), rest)
  }

  lemma FoldDot(c: byte)
    ensures (Fold(c) == DOT <==> c == DOT) && (Fold(c) == 0 <==> c == 0)
  {
  }

  lemma {:induction false} FoldParts(a: seq<byte>, b: seq<byte>)
    ensures FoldAll(a + b) == FoldAll(a) + FoldAll(b)
  {
  }

  /** Equal texts are equal in front of `n` and from `n` on. */
  lemma FoldSplit(s: seq<byte>, t: seq<byte>, n: nat)
    requires n <= |s| && n <= |t|
    ensures FoldAll(s) == FoldAll(t) <==> FoldAll(s[..n]) == FoldAll(t[..n]) && FoldAll(s[n..]) == FoldAll(t[n..])
  {
    FoldParts(s[..n], s[n..]);
    FoldParts(t[..n], t[n..]);
    assert s[..n] + s[n..] == s && t[..n] + t[n..] == t;
  }

  lemma SameFront(text: seq<byte>, l: Label, tail: seq<byte>)
    ensures FoldAll(text) == FoldAll(l + [DOT] + tail) <==>
            && |l| < |text| && FoldAll(text[..|l|]) == FoldAll(l) && text[|l|] == DOT
            && FoldAll(text[|l| + 1..]) == FoldAll(tail)
  {
    var x, n := l + [DOT] + tail, |l|;
    assert x[..n] == l && x[n..][1..] == tail && x[n + 1..] == tail && x[n] == DOT;
    if FoldAll(text) == FoldAll(x) {
      assert |text| == |x|;
      assert FoldAll(text)[n] == FoldAll(x)[n];
      FoldDot(text[n]);
    }
    if n < |text| && |text| == |x| {
      FoldSplit(text, x, n);
      FoldSplit(text[n..], x[n..], 1);
      assert text[n..][1..] == text[n + 1..];
      assert text[n..][..1] == [text[n]] && x[n..][..1] == [DOT];
    }
  }

  lemma NameFront(text: seq<byte>, l: Label, ls: seq<Label>)
    requires l != [] && forall i :: 0 <= i < |ls| ==> ls[i] != []
    ensures IsName(text, [l] + ls) <==> Remains(text, l, Raw(ls, false))
  {
    hide FoldAll, Dotted;
    DottedCons(l, ls);
    DottedEmpty(ls);
    DottedEmpty([]);
    assert text[..|text|] == text;
    if ls == [] {
      SameFront(text, l, []);
      assert l + [DOT] + [] == l + [DOT];
    } else {
      SameFront(text, l, Dotted(ls));
      SameFront(text, l, Dotted(ls) + [DOT]);
      assert l + [DOT] + (Dotted(ls) + [DOT]) == Dotted([l] + ls) + [DOT];
    }
  }

  lemma StartFront(text: seq<byte>, l: Label, ls: seq<Label>)
    requires l != [] && forall i :: 0 <= i < |ls| ==> ls[i] != []
    ensures StartsWith(text, [l] + ls) <==> Remains(text, l, Raw(ls, true))
  {
    hide FoldAll, Dotted;
    DottedCons(l, ls);
    DottedEmpty(ls);
    var x := Dotted([l] + ls);
    assert text[..|text|] == text;
    if ls == [] {
      if |text| > |l| {
        var front := text[..|l| + 1];
        SameFront(front, l, []);
        assert l + [DOT] + [] == l + [DOT] && front[..|l|] == text[..|l|] && front[|l| + 1..] == [];
      }
    } else {
      SameFront(text, l, Dotted(ls));
      if |text| > |x| {
        var front := text[..|x| + 1];
        SameFront(front, l, Dotted(ls) + [DOT]);
        assert l + [DOT] + (Dotted(ls) + [DOT]) == x + [DOT];
        assert front[..|l|] == text[..|l|] && front[|l| + 1..] == text[|l| + 1..][..|Dotted(ls)| + 1];
      }
    }
  }

  lemma {:induction false} DottedEmpty(ls: seq<Label>)
    requires forall i :: 0 <= i < |ls| ==> ls[i] != []
    ensures Dotted(ls) == [] <==> ls == []
  {
  }

  /** A label matches the front of a string without NULs exactly when they agree but for case. */
  lemma {:induction false} NulMatches(l: Label, name: seq<byte>)
    requires 0 !in name
    ensures CompareLabel(l, name) == 0 && |l| <= |name| <==> |l| <= |name| && FoldAll(l) == FoldAll(name[..|l|])
  {
    if 0 !in l {
      LabelMatches(l, name);
    } else {
      if |l| <= |name| {
        NulLabel(l, name);
      }
      if |l| <= |name| && FoldAll(l) == FoldAll(name[..|l|]) {
        var i :| 0 <= i < |l| && l[i] == 0;
        assert FoldAll(l)[i] == FoldAll(name[..|l|])[i];
        FoldDot(name[i]);
      }
    }
  }

  /** A label with a NUL is never the front of a string without. */
  lemma {:induction false} NulLabel(l: Label, name: seq<byte>)
    requires 0 !in name && 0 in l && |l| <= |name|
    ensures CompareLabel(l, name) != 0
  {
    FoldDot(l[0]);
    FoldDot(name[0]);
    if l[0] != 0 {
      NulLabel(l[1..], name[1..]);
    }
  }

  lemma {:induction false} LabelsNonEmpty(message: seq<byte>, pos: nat, level: nat)
    ensures var r := ReadLabels(message, pos, level);
            r.Some? ==> forall i :: 0 <= i < |r.value.labels| ==> r.value.labels[i] != []
    decreases MAX_RECURSION - level, |message| - pos
  {
    hide Pointer;
    if level < MAX_RECURSION && pos < |message| && message[pos] != 0 {
      if message[pos] < COMPRESSION_TAG {
        LabelsNonEmpty(message, pos + 1 + message[pos], level);
      } else if pos + 1 < |message| {
        LabelsNonEmpty(message, Pointer(message, pos), level + 1);
      }
    }
  }

  /** Comparing a name in a message with a string, wherever the name is in the recursion. */
  lemma {:induction false} CompareAgrees(message: seq<byte>, pos: nat, text: seq<byte>, level: nat)
    requires 0 !in text
    ensures var r := ReadLabels(message, pos, level);
            Compare(message, pos, text, level) == Some(0) <==> r.Some? && Agrees(text, r.value)
    decreases MAX_RECURSION - level, |message| - pos
  {
    hide Pointer, CompareLabel, FoldAll, Dotted, Remains;
    if level < MAX_RECURSION && pos < |message| {
      if message[pos] == 0 {
        assert Dotted([]) == [] && (text == [] <==> FoldAll(text) == FoldAll([])) by {
          DottedEmpty([]);
          assert |FoldAll(text)| == |text|;
        }
      } else if message[pos] < COMPRESSION_TAG {
        if pos + 1 + message[pos] <= |message| {
          CompareAfterLabel(message, pos, text, level);
        }
      } else if pos + 1 < |message| {
        CompareAgrees(message, Pointer(message, pos), text, level + 1);
      }
    }
  }

  lemma {:induction false} CompareAfterLabel(message: seq<byte>, pos: nat, text: seq<byte>, level: nat)
    requires 0 !in text && level < MAX_RECURSION && pos < |message| && 0 < message[pos] < COMPRESSION_TAG
    requires pos + 1 + message[pos] <= |message|
    ensures var r := ReadLabels(message, pos, level);
            Compare(message, pos, text, level) == Some(0) <==> r.Some? && Agrees(text, r.value)
    decreases MAX_RECURSION - level, |message| - pos - 1
  {
    hide Pointer, CompareLabel, FoldAll, Dotted;
    var end := pos + 1 + message[pos];
    var l, rest := message[pos + 1..end], ReadLabels(message, end, level);
    NulMatches(l, text);
    if |l| <= |text| {
      CompareAgrees(message, end, AfterLabel(text, |l|), level);
    }
    if rest.Some? {
      LabelsNonEmpty(message, end, level);
      NameFront(text, l, rest.value.labels);
      StartFront(text, l, rest.value.labels);
    }
  }

  /**
   What a comparison that gives 0 means, for every message, every place in it, and every string
   without NULs: the labels of the name, through any pointers, are the string but for case,
   and a dot at the end of the string makes no difference. The one exception is a name that
   ends in a pointer of which a byte is missing: it is equal to everything that starts with its labels.
   */
  lemma {:induction false} CompareExactly(message: seq<byte>, pos: nat, candidate: seq<byte>)
    requires 0 !in candidate
    ensures var r := ReadLabels(message, pos, 0);
            Compare(message, pos, candidate, 0) == Some(0) <==>
              r.Some? && if r.value.cut then StartsWith(candidate, r.value.labels) else IsName(candidate, r.value.labels)
  {
    CompareAgrees(message, pos, candidate, 0);
  }

  /** The comparison stays inside the string as long as the labels it goes through have no NULs. */
  lemma {:induction false} CompareDefined(message: seq<byte>, pos: nat, text: seq<byte>, level: nat)
    requires var r := ReadLabels(message, pos, level);
             r.Some? && forall i :: 0 <= i < |r.value.labels| ==> 0 !in r.value.labels[i]
    requires 0 !in text
    ensures Compare(message, pos, text, level).Some?
    decreases MAX_RECURSION - level, |message| - pos
  {
    hide Pointer, CompareLabel, FoldAll;
    if message[pos] >= COMPRESSION_TAG {
      if pos + 1 < |message| {
        CompareDefined(message, Pointer(message, pos), text, level + 1);
      }
    } else if message[pos] != 0 {
      var end := pos + 1 + message[pos];
      var l, labels := message[pos + 1..end], ReadLabels(message, pos, level).value.labels;
      var rest := ReadLabels(message, end, level).value.labels;
      assert labels[0] == l && forall i :: 0 <= i < |rest| ==> rest[i] == labels[i + 1];
      LabelMatches(l, text);
      if |l| <= |text| {
        CompareDefined(message, end, AfterLabel(text, |l|), level);
      }
    }
  }

  /** The label "a" and a pointer to the end marker behind it, after any bytes that leave the pointer in range. */
  function DottedName(before: seq<byte>): seq<byte>
    requires |before| + 4 < 0x4000
  {
    before + [1, 97, COMPRESSION_TAG + (|before| + 4) / 0x100, (|before| + 4) % 0x100, 0]
  }

  /** The dot matters: wherever it is in a message, this name is decoded as "a." and compares equal to "a". */
  lemma DotIgnored(before: seq<byte>)
    requires |before| + 4 < 0x4000
    ensures var m, pos := DottedName(before), |before|;
            && Parse(m, pos, 0).Some? && Parse(m, pos, 0).value.Text() == [97, DOT]
            && Compare(m, pos, [97], 0) == Some(0)
  {
    hide Parse, Compare, FoldAll;
    var m, pos := DottedName(before), |before|;
    assert m[pos] == 1 && m[pos + 1] == 97 && m[pos + 4] == 0 && m[pos + 1..pos + 2] == [97];
    assert m[pos + 2] >= COMPRESSION_TAG && Pointer(m, pos + 2) == pos + 4;
    ParseCases(m, pos + 4, 1);
    ParseCases(m, pos + 2, 0);
    LabelCase(m, pos, 0);
    var name := Parse(m, pos, 0).value;
    assert name.labels == [[97]];
    ParsedLabels(m, pos, 0);
    CompareExactly(m, pos, [97]);
  }

  /** Why the name has to be parsed first: a pointer cut short compares equal to everything. */
  lemma {:induction false} CutPointerMatches(message: seq<byte>, pos: nat, candidate: seq<byte>)
    requires pos + 1 == |message| && message[pos] >= COMPRESSION_TAG
    ensures Compare(message, pos, candidate, 0) == Some(0) && Parse(message, pos, 0).None?
  {
  }
}
