/** UTF-8 as Rust's standard library reads it: well-formed sequences (Table 3-7 of
    the Unicode Standard), `String::from_utf8_lossy` and char boundaries. */
module Utf8 {
  import opened Text

  predicate IsContinuation(b: Byte) { 0x80 <= b < 0xC0 }

  /** The bytes a scalar that starts with `lead` takes, or 0 when none does. */
  function Width(lead: Byte): nat
  {
    if lead < 0x80 then 1
    else if 0xC2 <= lead < 0xE0 then 2
    else if 0xE0 <= lead < 0xF0 then 3
    else if 0xF0 <= lead < 0xF5 then 4
    else 0
  }

  /** `second` may follow `lead` in a well-formed sequence. */
  predicate SecondFits(lead: Byte, second: Byte)
  {
    && IsContinuation(second)
    && (lead == 0xE0 ==> second >= 0xA0)
    && (lead == 0xED ==> second < 0xA0)
    && (lead == 0xF0 ==> second >= 0x90)
    && (lead == 0xF4 ==> second < 0x90)
  }

  /** The length of the well-formed scalar at the start of `s`, or 0. */
  function ScalarLen(s: Bytes): (n: nat)
    ensures n <= |s| && n <= 4
  {
    if s == [] then 0
    else
      var w := Width(s[0]);
      if w == 0 || w > |s| then 0
      else if w >= 2 && !SecondFits(s[0], s[1]) then 0
      else if w >= 3 && !IsContinuation(s[2]) then 0
      else if w >= 4 && !IsContinuation(s[3]) then 0
      else w
  }

  /** The length of the ill-formed sequence at the start of `s` that one replacement
      character stands for: as much as could have begun a scalar. */
  function BrokenLen(s: Bytes): (n: nat)
    requires s != []
    ensures 1 <= n <= |s| && n <= 3
  {
    var w := Width(s[0]);
    if w < 2 || |s| < 2 || !SecondFits(s[0], s[1]) then 1
    else if w < 3 || |s| < 3 || !IsContinuation(s[2]) then 2
    else if w < 4 || |s| < 4 || !IsContinuation(s[3]) then 3
    else 1
  }

  const REPLACEMENT: Bytes := [0xEF, 0xBF, 0xBD]

  predicate Valid(s: Bytes)
  {
    s == [] || (ScalarLen(s) > 0 && Valid(s[ScalarLen(s)..]))
  }

  function Lossy(s: Bytes): Bytes
  {
    if s == [] then []
    else if ScalarLen(s) > 0 then s[..ScalarLen(s)] + Lossy(s[ScalarLen(s)..])
    else REPLACEMENT + Lossy(s[BrokenLen(s)..])
  }

  /** The bytes that decoding adds: three for every ill-formed sequence, less its own. */
  function Growth(s: Bytes): nat
  {
    if s == [] then 0
    else if ScalarLen(s) > 0 then Growth(s[ScalarLen(s)..])
    else 3 - BrokenLen(s) + Growth(s[BrokenLen(s)..])
  }

  lemma {:induction false} LossyGrows(s: Bytes)
    ensures |Lossy(s)| == |s| + Growth(s)
  {
    hide ScalarLen, BrokenLen;
    if s != [] {
      if ScalarLen(s) > 0 {
        LossyGrows(s[ScalarLen(s)..]);
      } else {
        LossyGrows(s[BrokenLen(s)..]);
      }
    }
  }

  lemma {:induction false} AsciiIsValid(s: Bytes)
    requires forall k :: 0 <= k < |s| ==> s[k] < 0x80
    ensures Valid(s)
  {
    if s != [] {
      assert ScalarLen(s) == 1;
      AsciiIsValid(s[1..]);
    }
  }

  /** `str::is_char_boundary`. */
  predicate IsBoundary(s: Bytes, i: nat)
  {
    i == 0 || i == |s| || (i < |s| && !IsContinuation(s[i]))
  }

  lemma {:induction false} LossyIsIdentity(s: Bytes)
    requires Valid(s)
    ensures Lossy(s) == s
  {
    if s != [] {
      LossyIsIdentity(s[ScalarLen(s)..]);
    }
  }

  lemma {:induction false} ScalarShape(s: Bytes, k: nat)
    requires k < ScalarLen(s)
    ensures IsContinuation(s[k]) <==> k > 0
    ensures k > 0 ==> s[k - 1] >= 0x80
  {
  }

  /** Decoding always yields well-formed text, as a Rust `String` must be. */
  lemma {:induction false} LossyIsValid(s: Bytes)
    ensures Valid(Lossy(s))
  {
    if s != [] {
      var n := ScalarLen(s);
      if n > 0 {
        LossyIsValid(s[n..]);
        ValidScalarCons(s[..n], Lossy(s[n..]));
      } else {
        LossyIsValid(s[BrokenLen(s)..]);
        ValidScalarCons(REPLACEMENT, Lossy(s[BrokenLen(s)..]));
      }
    }
  }

  lemma {:induction false} ValidScalarCons(scalar: Bytes, rest: Bytes)
    requires ScalarLen(scalar) == |scalar| > 0
    requires Valid(rest)
    ensures Valid(scalar + rest)
  {
    assert ScalarLen(scalar + rest) == |scalar|;
    assert (scalar + rest)[|scalar|..] == rest;
  }

  /** What is left after skipping the continuation bytes at the start. */
  function SkipContinuation(s: Bytes): Bytes
  {
    if s != [] && IsContinuation(s[0]) then SkipContinuation(s[1..]) else s
  }

  lemma {:induction false} SkipRun(a: Bytes, b: Bytes)
    requires forall i :: 0 <= i < |a| ==> IsContinuation(a[i])
    requires b == [] || !IsContinuation(b[0])
    ensures SkipContinuation(a + b) == b
  {
    if a == [] {
      assert a + b == b;
    } else {
      assert (a + b)[1..] == a[1..] + b;
      SkipRun(a[1..], b);
    }
  }

  lemma {:induction false} ValidStart(s: Bytes)
    requires Valid(s)
    ensures s == [] || !IsContinuation(s[0])
  {
    if s != [] { ScalarShape(s, 0); }
  }

  lemma {:induction false} CutInsideScalar(s: Bytes, k: nat)
    requires Valid(s) && 0 < k < ScalarLen(s)
    ensures SkipContinuation(s[k..]) == s[ScalarLen(s)..]
    ensures s[k - 1] >= 0x80
  {
    hide SkipContinuation, Valid;
    var n := ScalarLen(s);
    ScalarShape(s, k);
    forall i | 0 <= i < n - k ensures IsContinuation(s[k..n][i]) { ScalarShape(s, k + i); }
    assert s[k..] == s[k..n] + s[n..];
    assert Valid(s[n..]) by { ValidTail(s); }
    ValidStart(s[n..]);
    SkipRun(s[k..n], s[n..]);
  }

  lemma {:induction false} ValidTail(s: Bytes)
    requires Valid(s) && s != []
    ensures ScalarLen(s) > 0 && Valid(s[ScalarLen(s)..])
  {
  }

  /** Cut well-formed text anywhere: skipping the continuation bytes the cut left over
      gives well-formed text again, and after an ASCII byte there are none to skip. */
  lemma {:induction false} SkipAfterCut(s: Bytes, k: nat)
    requires Valid(s) && k <= |s|
    ensures Valid(SkipContinuation(s[k..]))
    ensures k == 0 || s[k - 1] < 0x80 ==> SkipContinuation(s[k..]) == s[k..]
  {
    hide ScalarLen;
    if s[k..] == s {
      ValidStart(s);
    } else {
      ValidTail(s);
      var n := ScalarLen(s);
      if k < n {
        CutInsideScalar(s, k);
      } else {
        SkipAfterCut(s[n..], k - n);
        assert s[n..][k - n..] == s[k..];
      }
    }
  }

  /** A cut at a char boundary of well-formed text leaves well-formed text. */
  lemma {:induction false} BoundaryCut(s: Bytes, k: nat)
    requires Valid(s) && k <= |s| && IsBoundary(s, k)
    ensures Valid(s[..k])
  {
    if k > 0 {
      var n := ScalarLen(s);
      if k < n {
        ScalarShape(s, k);
      } else {
        BoundaryCut(s[n..], k - n);
        assert s[..k] == s[..n] + s[n..][..k - n];
        assert ScalarLen(s[..n]) == n;
        ValidScalarCons(s[..n], s[n..][..k - n]);
      }
    }
  }

  // ---- what the well-formed sequences are ---------------------------------------------------

  /** The Unicode scalar values: code points but for the surrogates. */
  predicate IsScalar(c: nat) { c < 0xD800 || 0xE000 <= c < 0x11_0000 }

  /** The encoding of a scalar value, section 3 of RFC 3629. */
  function Encoded(c: nat): Bytes
    requires IsScalar(c)
  {
    if c < 0x80 then [c as Byte]
    else if c < 0x800 then [(0xC0 + c / 0x40) as Byte, (0x80 + c % 0x40) as Byte]
    else if c < 0x1_0000 then
      [(0xE0 + c / 0x1000) as Byte, (0x80 + c / 0x40 % 0x40) as Byte, (0x80 + c % 0x40) as Byte]
    else
      [(0xF0 + c / 0x4_0000) as Byte, (0x80 + c / 0x1000 % 0x40) as Byte,
       (0x80 + c / 0x40 % 0x40) as Byte, (0x80 + c % 0x40) as Byte]
  }

  /** The shape that `ScalarLen` looks for. */
  predicate HasShape(e: Bytes)
  {
    && e != [] && |e| == Width(e[0])
    && (|e| >= 2 ==> SecondFits(e[0], e[1]))
    && (|e| >= 3 ==> IsContinuation(e[2]))
    && (|e| >= 4 ==> IsContinuation(e[3]))
  }

  lemma {:induction false} EncodedHasShape(c: nat)
    requires IsScalar(c)
    ensures HasShape(Encoded(c))
  {
  }

  lemma {:induction false} ShapeIsEncoded(e: Bytes) returns (c: nat)
    requires HasShape(e)
    ensures IsScalar(c) && Encoded(c) == e
  {
    hide *;
    ShapeFits(e);
    if |e| == 1 {
      c := OneByte(e);
    } else if |e| == 2 {
      c := TwoBytes(e);
    } else if |e| == 3 {
      c := ThreeBytes(e);
    } else {
      c := FourBytes(e);
    }
  }

  lemma ShapeFits(e: Bytes)
    requires HasShape(e)
    ensures 1 <= |e| <= 4
  {
  }

  lemma OneByte(e: Bytes) returns (c: nat)
    requires HasShape(e) && |e| == 1
    ensures IsScalar(c) && Encoded(c) == e
  {
    c := e[0] as nat;
  }

  lemma {:induction false} TwoBytes(e: Bytes) returns (c: nat)
    requires HasShape(e) && |e| == 2
    ensures IsScalar(c) && Encoded(c) == e
  {
    c := Joined(e[0] as nat - 0xC0, e[1]);
  }

  lemma {:induction false} ThreeBytes(e: Bytes) returns (c: nat)
    requires HasShape(e) && |e| == 3
    ensures IsScalar(c) && Encoded(c) == e
  {
    hide Joined;
    c := Joined(Joined(e[0] as nat - 0xE0, e[1]), e[2]);
    assert c / 0x1000 == c / 0x40 / 0x40;
  }

  lemma {:induction false} FourBytes(e: Bytes) returns (c: nat)
    requires HasShape(e) && |e| == 4
    ensures IsScalar(c) && Encoded(c) == e
  {
    hide Joined;
    c := Joined(Joined(Joined(e[0] as nat - 0xF0, e[1]), e[2]), e[3]);
    assert c / 0x1000 == c / 0x40 / 0x40 && c / 0x4_0000 == c / 0x40 / 0x40 / 0x40;
  }

  function Joined(high: nat, b: Byte): (c: nat)
    requires IsContinuation(b)
    ensures c / 0x40 == high && c % 0x40 == b as nat - 0x80
  {
    high * 0x40 + (b as nat - 0x80)
  }

  lemma {:induction false} ShapeStarts(s: Bytes, n: nat)
    requires n <= |s| && HasShape(s[..n])
    ensures ScalarLen(s) == n
  {
  }

  /** A scalar is read at the start of `s` exactly when `s` starts with the encoding of one,
      and it is that one. */
  lemma {:induction false} ScalarWhen(s: Bytes, c: nat)
    requires IsScalar(c)
    ensures Encoded(c) <= s <==> ScalarLen(s) > 0 && s[..ScalarLen(s)] == Encoded(c)
  {
    hide Encoded, HasShape;
    EncodedHasShape(c);
    if Encoded(c) <= s {
      assert s[..|Encoded(c)|] == Encoded(c);
      ShapeStarts(s, |Encoded(c)|);
      assert Encoded(c) != [] by { ShapeNotEmpty(Encoded(c)); }
    }
  }

  lemma ShapeNotEmpty(e: Bytes)
    requires HasShape(e)
    ensures e != []
  {
  }

  lemma {:induction false} ScalarHasShape(s: Bytes)
    requires ScalarLen(s) > 0
    ensures HasShape(s[..ScalarLen(s)])
  {
  }

  /** The text of these scalar values. */
  function EncodedText(text: seq<nat>): Bytes
    requires forall k :: 0 <= k < |text| ==> IsScalar(text[k])
  {
    if text == [] then [] else Encoded(text[0]) + EncodedText(text[1..])
  }

  lemma {:induction false} TextIsValid(text: seq<nat>)
    requires forall k :: 0 <= k < |text| ==> IsScalar(text[k])
    ensures Valid(EncodedText(text))
  {
    hide Encoded;
    if text != [] {
      TextIsValid(text[1..]);
      ScalarWhen(Encoded(text[0]), text[0]);
      ValidScalarCons(Encoded(text[0]), EncodedText(text[1..]));
    }
  }

  lemma {:induction false} ValidIsText(s: Bytes) returns (text: seq<nat>)
    requires Valid(s)
    ensures forall k :: 0 <= k < |text| ==> IsScalar(text[k])
    ensures EncodedText(text) == s
  {
    hide Encoded, HasShape, ScalarLen;
    if s == [] {
      text := [];
    } else {
      ScalarHasShape(s);
      var n := ScalarLen(s);
      var first := ShapeIsEncoded(s[..n]);
      var rest := ValidIsText(s[n..]);
      text := [first] + rest;
      assert text[1..] == rest && s == s[..n] + s[n..];
    }
  }

  ghost predicate EncodesTo(text: seq<nat>, s: Bytes)
  {
    (forall k :: 0 <= k < |text| ==> IsScalar(text[k])) && EncodedText(text) == s
  }

  /** Bytes are well-formed exactly when they encode some text. */
  lemma {:induction false} ValidWhen(s: Bytes)
    ensures Valid(s) <==> exists text: seq<nat> :: EncodesTo(text, s)
  {
    if Valid(s) {
      var text := ValidIsText(s);
      assert EncodesTo(text, s);
    }
    if text: seq<nat> :| EncodesTo(text, s) {
      TextIsValid(text);
    }
  }

  /** The bytes begin the encoding of some scalar value. */
  ghost predicate Begins(p: Bytes) { exists c: nat :: IsScalar(c) && p <= Encoded(c) }

  /** One replacement character stands for the longest ill-formed sequence that begins an
      encoding, or for one byte. */
  lemma {:induction false} BrokenIsMaximal(s: Bytes, k: nat)
    requires s != [] && ScalarLen(s) == 0 && 2 <= k <= |s|
    ensures k <= BrokenLen(s) <==> Begins(s[..k])
  {
    hide Encoded;
    if k <= BrokenLen(s) {
      var e := if Width(s[0]) == 3 then s[..2] + [0x80] else s[..k] + if k == 2 then [0x80, 0x80] else [0x80];
      var c := ShapeIsEncoded(e);
      assert s[..k] <= Encoded(c);
    }
    if Begins(s[..k]) {
      var c: nat :| IsScalar(c) && s[..k] <= Encoded(c);
      EncodedHasShape(c);
      var e := Encoded(c);
      assert e[0] == s[0] && e[1] == s[1] && (k > 2 ==> e[2] == s[2]);
    }
  }
}
