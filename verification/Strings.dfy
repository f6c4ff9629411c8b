/** Bytes and C strings. */
module Strings {
  type Byte = x: int | 0 <= x < 256

  /** A C string ends at its first zero byte. */
  function CString(s: seq<Byte>): (r: seq<Byte>) {
    if s == [] || s[0] == 0 then [] else [s[0]] + CString(s[1..])
  }

  predicate IsString(s: seq<Byte>) {
    forall k :: 0 <= k < |s| ==> s[k] != 0
  }

  lemma {:induction false} CStringStops(name: seq<Byte>, rest: seq<Byte>)
    requires IsString(name)
    ensures CString(name + [0] + rest) == name
  {
    var s := name + [0] + rest;
    if name == [] {
      assert s[0] == 0;
    } else {
      CStringStops(name[1..], rest);
      assert s[1..] == name[1..] + [0] + rest;
      assert s[0] == name[0] && name == [name[0]] + name[1..];
    }
  }
}
