/** The options field of a DHCP message: appending an option and looking one up. */
module DhcpOptions {
  import opened Bytes

  const PAD: byte := 0
  const END: byte := 255
  const FIXED_PART: int := 240  // bytes of a message before its options

  /** An option: neither padding nor the end, with a value of at most 255 bytes. */
  datatype Setting = Setting(code: byte, value: seq<byte>) {
    predicate Valid() {
      code != PAD && code != END && |value| <= 255
    }
  }

  predicate AllValid(os: seq<Setting>) {
    forall i :: 0 <= i < |os| ==> os[i].Valid()
  }

  /** The options one after the other, without the end mark. */
  function Encoded(os: seq<Setting>): seq<byte>
    requires AllValid(os)
  {
    if os == [] then [] else [os[0].code, |os[0].value|] + os[0].value + Encoded(os[1..])
  }

  /** The field holds these options and then the end mark; anything may follow. */
  predicate Holds(field: seq<byte>, os: seq<Setting>)
    requires AllValid(os)
  {
    Encoded(os) + [END] <= field
  }

  lemma {:induction false} EncodedSnoc(os: seq<Setting>, o: Setting)
    requires AllValid(os) && o.Valid()
    ensures AllValid(os + [o]) && Encoded(os + [o]) == Encoded(os) + [o.code, |o.value|] + o.value
  {
    if os == [] {
      assert os + [o] == [o] && [o][1..] == os;
    } else {
      EncodedSnoc(os[1..], o);
      assert (os + [o])[1..] == os[1..] + [o];
      assert [os[0].code, |os[0].value|] + os[0].value + (Encoded(os[1..]) + [o.code, |o.value|] + o.value)
          == Encoded(os) + [o.code, |o.value|] + o.value;
    }
  }

  lemma {:induction false} EncodedFront(os: seq<Setting>)
    requires AllValid(os) && os != []
    ensures Encoded(os) == [os[0].code, |os[0].value|] + os[0].value + Encoded(os[1..])
    ensures |Encoded(os)| == 2 + |os[0].value| + |Encoded(os[1..])|
  {
  }

  // ----- looking up -----

  /** dhcpGetOption from offset `i` on: the offset of the option that is found. */
  function Get(field: seq<byte>, i: nat, code: byte): (r: Option<nat>)
    ensures r.Some? ==> r.value + 1 < |field| && r.value + 1 + field[r.value + 1] < |field| && field[r.value] == code
    decreases |field| - i
  {
    if i >= |field| then None
    else if field[i] == PAD then Get(field, i + 1, code)
    else if field[i] == END || i + 1 >= |field| || i + 1 + field[i + 1] >= |field| then None
    else if field[i] == code then Some(i)
    else Get(field, i + field[i + 1] + 2, code)
  }

  /** dhcpGetOption; `field` is what follows the fixed part of the message, and `size` the length of the message. */
  method GetOption(field: array<byte>, size: nat, code: byte) returns (r: Option<nat>)
    requires size <= FIXED_PART + field.Length
    ensures r == if size < FIXED_PART then None else Get(field[..size - FIXED_PART], 0, code)
  {
    if size < FIXED_PART {
      return None;
    }
    var length := size - FIXED_PART;
    var i: nat := 0;
    while i < length
      invariant Get(field[..length], 0, code) == Get(field[..length], i, code)
      decreases length - i
    {
      if field[i] == PAD {
        i := i + 1;
      } else {
        if field[i] == END {
          return None;
        }
        if i + 1 >= length || i + 1 + field[i + 1] >= length {
          return None;
        }
        if field[i] == code {
          return Some(i);
        }
        var n: int := field[i + 1];
        i := i + (n + 1);
        i := i + 1;
      }
    }
    return None;
  }

  /** The value of the option with the code that comes first. */
  function Lookup(os: seq<Setting>, code: byte): Option<seq<byte>> {
    if os == [] then None else if os[0].code == code then Some(os[0].value) else Lookup(os[1..], code)
  }

  /** The value of an option that was found. */
  function ValueAt(field: seq<byte>, i: nat): seq<byte>
    requires i + 1 < |field| && i + 1 + field[i + 1] < |field|
  {
    field[i + 2..i + 2 + field[i + 1]]
  }

  function Found(field: seq<byte>, code: byte): Option<seq<byte>> {
    var r := Get(field, 0, code);
    if r.None? then None else Some(ValueAt(field, r.value))
  }

  /** Searching the field is searching the options that it holds. */
  lemma {:induction false} GetHeld(before: seq<byte>, os: seq<Setting>, after: seq<byte>, code: byte)
    requires AllValid(os)
    ensures var field := before + Encoded(os) + [END] + after;
            var r := Get(field, |before|, code);
            && (r.Some? <==> Lookup(os, code).Some?)
            && (r.Some? ==> ValueAt(field, r.value) == Lookup(os, code).value)
    decreases |os|
  {
    hide Get, ValueAt, Encoded;
    var field := before + Encoded(os) + [END] + after;
    if os == [] {
      NothingEncoded(os);
      assert field[|before|] == END;
      GetCases(field, |before|, code);
    } else {
      HeldFront(before, os, after);
      GetCases(field, |before|, code);
      if os[0].code != code {
        GetHeld(before + [os[0].code, |os[0].value|] + os[0].value, os[1..], after, code);
      }
    }
  }

  lemma {:induction false} HeldFront(before: seq<byte>, os: seq<Setting>, after: seq<byte>)
    requires AllValid(os) && os != []
    ensures var field, o := before + Encoded(os) + [END] + after, os[0];
            var next := before + [o.code, |o.value|] + o.value;
            && |next| == |before| + 2 + |o.value| < |field| && field == next + Encoded(os[1..]) + [END] + after
            && field[|before|] == o.code && field[|before| + 1] == |o.value|
            && field[|before| + 2..|next|] == o.value
  {
    hide Encoded;
    EncodedFront(os);
    var o := os[0];
    var next := before + [o.code, |o.value|] + o.value;
    var field := next + Encoded(os[1..]) + [END] + after;
    assert before + ([o.code, |o.value|] + o.value + Encoded(os[1..])) == next + Encoded(os[1..]);
    assert field[..|next|] == next;
  }

  lemma {:induction false} NothingEncoded(os: seq<Setting>)
    requires os == []
    ensures Encoded(os) == []
  {
  }

  lemma GetCases(field: seq<byte>, i: nat, code: byte)
    requires i < |field| && field[i] != PAD
    ensures field[i] == END ==> Get(field, i, code).None?
    ensures field[i] != END && i + 1 < |field| && i + 1 + field[i + 1] < |field| ==>
              if field[i] == code then Get(field, i, code) == Some(i) && ValueAt(field, i) == field[i + 2..i + 2 + field[i + 1]]
              else Get(field, i, code) == Get(field, i + field[i + 1] + 2, code)
  {
  }

  lemma {:induction false} FoundHeld(field: seq<byte>, os: seq<Setting>, code: byte)
    requires AllValid(os) && Holds(field, os)
    ensures Found(field, code) == Lookup(os, code)
  {
    hide Get, ValueAt;
    var after := field[|Encoded(os)| + 1..];
    assert [] + Encoded(os) + [END] + after == field;
    GetHeld([], os, after, code);
  }

  // ----- appending -----

  /** dhcpAddOption, on a field that holds options and has room for one more. A longer value is not added at all. */
  method AddOption(field: array<byte>, code: byte, value: seq<byte>, ghost os: seq<Setting>)
    requires AllValid(os) && Holds(field[..], os) && code != PAD && code != END
    requires |value| <= 255 ==> |Encoded(os)| + 2 + |value| < field.Length
    modifies field
    ensures |value| > 255 ==> field[..] == old(field[..])
    ensures |value| <= 255 ==> AllValid(os + [Setting(code, value)]) && Holds(field[..], os + [Setting(code, value)])
  {
    hide Encoded;
    var n := FindEnd(field, os);
    if |value| <= 255 {
      EncodedSnoc(os, Setting(code, value));
      WriteOption(field, n, code, value);
      assert Encoded(os) + [END] == old(field[..])[..n + 1];
      assert field[..n] == Encoded(os);
    }
  }

  /** The new option and the end mark after it. */
  method WriteOption(field: array<byte>, n: nat, code: byte, value: seq<byte>)
    requires |value| <= 255 && n + 2 + |value| < field.Length
    modifies field
    ensures field[..n] == old(field[..n])
    ensures old(field[..n]) + [code, |value|] + value + [END] <= field[..]
  {
    field[n], field[n + 1] := code, |value|;
    var i := 0;
    while i < |value|
      invariant 0 <= i <= |value|
      invariant field[..n] == old(field[..n]) && field[n] == code && field[n + 1] == |value|
      invariant forall k :: 0 <= k < i ==> field[n + 2 + k] == value[k]
    {
      field[n + 2 + i] := value[i];
      i := i + 1;
    }
    field[n + 2 + |value|] := END;
    assert field[n + 2..n + 2 + |value|] == value;
    assert field[..n + 3 + |value|] == field[..n] + [code, |value|] + value + [END];
  }

  /** The scan for the end mark. */
  method FindEnd(field: array<byte>, ghost os: seq<Setting>) returns (n: nat)
    requires AllValid(os) && Holds(field[..], os)
    ensures n == |Encoded(os)| && n < field.Length
  {
    hide Encoded;
    ghost var rest, done: seq<Setting> := os, [];
    n := 0;
    NothingEncoded(done);
    assert done + rest == os;
    LastOption(field[..], os, done, rest);
    while field[n] != END
      invariant AllValid(done) && AllValid(rest) && done + rest == os
      invariant n == |Encoded(done)| && n < field.Length && Encoded(os) == Encoded(done) + Encoded(rest)
      decreases |rest|
    {
      NextOption(field[..], os, done, rest);
      var length: int := field[n + 1];
      n := n + (2 + length);
      done, rest := done + [rest[0]], rest[1..];
      LastOption(field[..], os, done, rest);
    }
    NextCode(field[..], os, done, rest);
    if rest != [] {
      assert false;
    }
    NothingEncoded(rest);
  }

  /** Where the scan is: at the code of the next option, or at the end mark, which no option has for its code. */
  lemma {:induction false} NextCode(field: seq<byte>, os: seq<Setting>, done: seq<Setting>, rest: seq<Setting>)
    requires AllValid(os) && AllValid(done) && AllValid(rest) && Holds(field, os)
    requires Encoded(os) == Encoded(done) + Encoded(rest) && |Encoded(done)| < |field|
    ensures rest == [] ==> field[|Encoded(done)|] == END
    ensures rest != [] ==> field[|Encoded(done)|] == rest[0].code != END
  {
    var code := Encoded(os) + [END];
    assert field[|Encoded(done)|] == code[|Encoded(done)|];
    if rest != [] {
      EncodedFront(rest);
    }
  }

  lemma {:induction false} NextOption(field: seq<byte>, os: seq<Setting>, done: seq<Setting>, rest: seq<Setting>)
    requires AllValid(os) && AllValid(done) && AllValid(rest) && done + rest == os && Holds(field, os)
    requires Encoded(os) == Encoded(done) + Encoded(rest) && |Encoded(done)| < |field|
    requires field[|Encoded(done)|] != END
    ensures rest != []
    ensures var n, o := |Encoded(done)|, rest[0];
            && n + 2 + |o.value| < |field| && field[n + 1] == |o.value|
            && AllValid(done + [o]) && AllValid(rest[1..]) && (done + [o]) + rest[1..] == os
            && |Encoded(done + [o])| == n + 2 + |o.value|
            && Encoded(os) == Encoded(done + [o]) + Encoded(rest[1..])
  {
    hide Encoded;
    NextCode(field, os, done, rest);
    EncodedFront(rest);
    EncodedSnoc(done, rest[0]);
    assert field[|Encoded(done)| + 1] == (Encoded(os) + [END])[|Encoded(done)| + 1];
    assert Encoded(done) + ([rest[0].code, |rest[0].value|] + rest[0].value + Encoded(rest[1..]))
        == Encoded(done) + [rest[0].code, |rest[0].value|] + rest[0].value + Encoded(rest[1..]);
  }

  lemma {:induction false} LastOption(field: seq<byte>, os: seq<Setting>, done: seq<Setting>, rest: seq<Setting>)
    requires AllValid(os) && AllValid(done) && AllValid(rest) && Holds(field, os)
    requires Encoded(os) == Encoded(done) + Encoded(rest)
    ensures |Encoded(done)| < |field|
  {
  }

  // ----- what is read back -----

  lemma {:induction false} LookupSnoc(os: seq<Setting>, o: Setting, code: byte)
    ensures Lookup(os + [o], code)
         == if Lookup(os, code).Some? then Lookup(os, code) else if o.code == code then Some(o.value) else None
  {
    if os == [] {
      assert os + [o] == [o] && [o][1..] == [];
    } else {
      assert (os + [o])[1..] == os[1..] + [o];
      LookupSnoc(os[1..], o, code);
    }
  }

  /**
   Appending an option: if its code was not there yet, it is found with exactly its value;
   every other code is found as before.
   */
  lemma Appended(field: seq<byte>, longer: seq<byte>, os: seq<Setting>, o: Setting, code: byte)
    requires AllValid(os) && o.Valid() && AllValid(os + [o]) && Holds(field, os) && Holds(longer, os + [o])
    ensures code == o.code && Found(field, code).None? ==> Found(longer, code) == Some(o.value)
    ensures code != o.code || Found(field, code).Some? ==> Found(longer, code) == Found(field, code)
  {
    FoundHeld(field, os, code);
    FoundHeld(longer, os + [o], code);
    LookupSnoc(os, o, code);
  }

  /** Any list of options with distinct codes is readable back. */
  lemma {:induction false} AllReadBack(field: seq<byte>, os: seq<Setting>, k: nat)
    requires AllValid(os) && Holds(field, os) && k < |os|
    requires forall i, j :: 0 <= i < j < |os| ==> os[i].code != os[j].code
    ensures Found(field, os[k].code) == Some(os[k].value)
  {
    FoundHeld(field, os, os[k].code);
    LookupAt(os, k);
  }

  lemma {:induction false} LookupAt(os: seq<Setting>, k: nat)
    requires k < |os| && forall i, j :: 0 <= i < j < |os| ==> os[i].code != os[j].code
    ensures Lookup(os, os[k].code) == Some(os[k].value)
  {
    if k > 0 {
      assert os[1..][k - 1] == os[k];
      LookupAt(os[1..], k - 1);
    }
  }
}
