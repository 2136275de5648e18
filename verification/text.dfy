/** Text helpers with JavaScript semantics: `Array.prototype.join` and the
    character classes used by the user schema's name pattern. */
module Text {

  /** `parts.join(sep)`: the parts in order with `sep` between neighbours;
      the empty list joins to the empty string. */
  function Join(parts: seq<string>, sep: string): (r: string)
    ensures |parts| == 0 ==> |r| == 0
    ensures |parts| > 0 ==> |r| + |sep| == LengthSum(parts) + |parts| * |sep|
  {
    if |parts| == 0 then ""
    else if |parts| == 1 then parts[0]
    else parts[0] + sep + Join(parts[1..], sep)
  }

  /** Total number of characters in all parts. */
  function LengthSum(parts: seq<string>): nat
  {
    if |parts| == 0 then 0 else |parts[0]| + LengthSum(parts[1..])
  }

  /** Position at which part `i` starts inside `Join(parts, sep)`. */
  function Offset(parts: seq<string>, sep: string, i: nat): nat
    requires i <= |parts|
  {
    if i == 0 then 0 else |parts[0]| + |sep| + Offset(parts[1..], sep, i - 1)
  }

  /** Part `i` of `parts` occupies `t` from `Offset(parts, sep, i)` on. */
  ghost predicate PartAt(t: string, parts: seq<string>, sep: string, i: nat)
    requires i < |parts|
  {
    var o := Offset(parts, sep, i);
    o + |parts[i]| <= |t| && t[o..o + |parts[i]|] == parts[i]
  }

  /** The separator follows part `i` in `t`. */
  ghost predicate SepAfter(t: string, parts: seq<string>, sep: string, i: nat)
    requires i < |parts|
  {
    var o := Offset(parts, sep, i) + |parts[i]|;
    o + |sep| <= |t| && t[o..o + |sep|] == sep
  }

  /** Independent description of a join: `t` has the right length, part `i`
      sits at `Offset(parts, sep, i)`, and a separator follows every part
      but the last. */
  ghost predicate IsJoinOf(t: string, parts: seq<string>, sep: string)
  {
    && (|parts| == 0 ==> |t| == 0)
    && (|parts| > 0 ==> |t| == Offset(parts, sep, |parts| - 1) + |parts[|parts| - 1]|)
    && (forall i: nat :: i < |parts| ==> PartAt(t, parts, sep, i))
    && (forall i: nat :: i + 1 < |parts| ==> SepAfter(t, parts, sep, i))
  }

  /** Inside a longer join, part `i` sits where part `i - 1` sits in the
      join of the tail, shifted by the first part and one separator. */
  lemma ShiftPartAt(t: string, t': string, parts: seq<string>, sep: string, i: nat)
    requires 1 <= i < |parts|
    requires |t| == |parts[0]| + |sep| + |t'| && t[|parts[0]| + |sep|..] == t'
    ensures PartAt(t, parts, sep, i) <==> PartAt(t', parts[1..], sep, i - 1)
  {
    var k := |parts[0]| + |sep|;
    var o := Offset(parts[1..], sep, i - 1);
    assert Offset(parts, sep, i) == k + o;
    if o + |parts[i]| <= |t'| {
      assert t[k + o..k + o + |parts[i]|] == t'[o..o + |parts[i]|];
    }
  }

  lemma ShiftSepAfter(t: string, t': string, parts: seq<string>, sep: string, i: nat)
    requires 1 <= i < |parts|
    requires |t| == |parts[0]| + |sep| + |t'| && t[|parts[0]| + |sep|..] == t'
    ensures SepAfter(t, parts, sep, i) <==> SepAfter(t', parts[1..], sep, i - 1)
  {
    var k := |parts[0]| + |sep|;
    var o := Offset(parts[1..], sep, i - 1) + |parts[i]|;
    assert Offset(parts, sep, i) + |parts[i]| == k + o;
    if o + |sep| <= |t'| {
      assert t[k + o..k + o + |sep|] == t'[o..o + |sep|];
    }
  }

  /** The join meets its independent description. */
  lemma {:induction false} JoinIsJoinOf(parts: seq<string>, sep: string)
    ensures IsJoinOf(Join(parts, sep), parts, sep)
    decreases |parts|
  {
    if |parts| == 0 {
      return;
    }
    var t := Join(parts, sep);
    if |parts| == 1 {
      assert PartAt(t, parts, sep, 0);
      return;
    }
    var rest := parts[1..];
    var t' := Join(rest, sep);
    JoinIsJoinOf(rest, sep);
    assert t == parts[0] + sep + t';
    assert t[|parts[0]| + |sep|..] == t';
    assert Offset(parts, sep, |parts| - 1) == |parts[0]| + |sep| + Offset(rest, sep, |rest| - 1);
    assert PartAt(t, parts, sep, 0);
    assert SepAfter(t, parts, sep, 0);
    forall i: nat | 1 <= i < |parts|
      ensures PartAt(t, parts, sep, i)
    {
      ShiftPartAt(t, t', parts, sep, i);
    }
    forall i: nat | 1 <= i && i + 1 < |parts|
      ensures SepAfter(t, parts, sep, i)
    {
      ShiftSepAfter(t, t', parts, sep, i);
    }
  }

  /** Only the join meets the description: it determines the string. */
  lemma {:induction false} IsJoinOfUnique(t: string, parts: seq<string>, sep: string)
    requires IsJoinOf(t, parts, sep)
    ensures t == Join(parts, sep)
    decreases |parts|
  {
    if |parts| == 0 {
      return;
    }
    assert PartAt(t, parts, sep, 0);
    if |parts| == 1 {
      assert t == t[0..|parts[0]|];
      return;
    }
    assert SepAfter(t, parts, sep, 0);
    var rest := parts[1..];
    var k := |parts[0]| + |sep|;
    var t' := t[k..];
    assert t == t[..|parts[0]|] + t[|parts[0]|..k] + t';
    forall i: nat | i < |rest|
      ensures PartAt(t', rest, sep, i)
    {
      assert PartAt(t, parts, sep, i + 1);
      ShiftPartAt(t, t', parts, sep, i + 1);
    }
    forall i: nat | i + 1 < |rest|
      ensures SepAfter(t', rest, sep, i)
    {
      assert SepAfter(t, parts, sep, i + 1);
      ShiftSepAfter(t, t', parts, sep, i + 1);
    }
    assert Offset(parts, sep, |parts| - 1) == k + Offset(rest, sep, |rest| - 1);
    IsJoinOfUnique(t', rest, sep);
  }

  /** JavaScript's `\s` class: the ECMAScript WhiteSpace and LineTerminator
      code points (section 22.2.2.9 of ECMA-262). */
  predicate IsJsWhitespace(c: char)
  {
    || c == '\t' || c == '\n' || c == '\U{000B}' || c == '\U{000C}' || c == '\r'
    || c == ' ' || c == '\U{00A0}' || c == '\U{1680}'
    || ('\U{2000}' <= c <= '\U{200A}')
    || c == '\U{2028}' || c == '\U{2029}' || c == '\U{202F}' || c == '\U{205F}'
    || c == '\U{3000}' || c == '\U{FEFF}'
  }

  predicate IsAsciiLetter(c: char)
  {
    ('A' <= c <= 'Z') || ('a' <= c <= 'z')
  }
}
