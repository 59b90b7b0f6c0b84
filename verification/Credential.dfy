/** Key ids and credential strings of crates/server/src/keystore.rs. */
module Credential {
  import opened Text
  import opened XYArithmetic

  datatype KeyKind = SecretKey | DeviceToken

  datatype Result<+T> = Ok(value: T) | InvalidFormat

  datatype Parsed = Parsed(kind: KeyKind, id: string, secret: string)

  const CROCKFORD32: string := "0123456789abcdefghjkmnpqrstvwxyz"
  const KEY_PREFIX: string := "atpc_"
  const KEY_ID_LEN: nat := 8
  const KEY_SECRET_LEN: nat := 43

  // ---- ids --------------------------------------------------------------------------

  datatype IdBytes = IdBytes(b0: Byte, b1: Byte, b2: Byte, b3: Byte, b4: Byte)

  /** The five bytes as one number. */
  function Number(d: IdBytes): nat
  {
    d.b0 as nat * 0x1_0000_0000 + d.b1 as nat * 0x100_0000 + d.b2 as nat * 0x1_0000 + d.b3 as nat * 0x100 + d.b4 as nat
  }

  /** The accumulator: the five bytes and two zero bytes after them. */
  function Accumulator(d: IdBytes): nat { Number(d) * 0x1_0000 }

  /** `(acc >> (5 * k)) & 0x1f` */
  function Digit(acc: nat, k: nat): (v: nat)
    ensures v < 32
  {
    if k == 0 then acc % 32 else Digit(acc / 32, k - 1)
  }

  function Symbol(v: nat): char
    requires v < 32
  {
    CROCKFORD32[v]
  }

  /** Character i has the shift 35 - 5 i, so the id is read from the low 40 bits of the
      accumulator, two bytes of which are always zero. */
  function CrockfordId(d: IdBytes): (id: string)
    ensures |id| == KEY_ID_LEN
  {
    var a := Accumulator(d);
    [Symbol(Digit(a, 7)), Symbol(Digit(a, 6)), Symbol(Digit(a, 5)), Symbol(Digit(a, 4)),
     Symbol(Digit(a, 3)), Symbol(Digit(a, 2)), Symbol(Digit(a, 1)), Symbol(Digit(a, 0))]
  }

  /** The alphabet is in ascending order, so no symbol occurs twice. */
  lemma {:induction false} SymbolInjective(u: nat, v: nat)
    requires u < v < 32
    ensures Symbol(u) < Symbol(v)
  {
    if u + 1 < v {
      SymbolInjective(u, v - 1);
    }
  }

  lemma {:induction false} SameSymbol(u: nat, v: nat)
    requires u < 32 && v < 32 && Symbol(u) == Symbol(v)
    ensures u == v
  {
    if u < v {
      SymbolInjective(u, v);
    } else if v < u {
      SymbolInjective(v, u);
    }
  }

  lemma {:induction false} DigitsOf(n: nat)
    ensures var a := n * 0x1_0000;
            && Digit(a, 0) == Digit(a, 1) == Digit(a, 2) == 0
            && Digit(a, 3) == n % 16 * 2
            && Digit(a, 4) == n / 16 % 32
            && Digit(a, 5) == n / 16 / 32 % 32
            && Digit(a, 6) == n / 16 / 32 / 32 % 32
            && Digit(a, 7) == n / 16 / 32 / 32 / 32 % 32
  {
    var a := n * 0x1_0000;
    assert a / 32 == n * 2048 && n * 2048 / 32 == n * 64 && n * 64 / 32 == n * 2 && n * 2 / 32 == n / 16;
    assert Digit(a, 1) == Digit(n * 2048, 0);
    assert Digit(a, 2) == Digit(n * 2048, 1) == Digit(n * 64, 0);
    assert Digit(a, 3) == Digit(n * 2048, 2) == Digit(n * 64, 1) == Digit(n * 2, 0);
    DigitBelow(a, n, 0);
    DigitBelow(a, n, 1);
    DigitBelow(a, n, 2);
    DigitBelow(a, n, 3);
    assert Digit(n / 16, 2) == Digit(n / 16 / 32, 1) == Digit(n / 16 / 32 / 32, 0);
    assert Digit(n / 16, 3) == Digit(n / 16 / 32, 2) == Digit(n / 16 / 32 / 32, 1) == Digit(n / 16 / 32 / 32 / 32, 0);
  }

  lemma {:induction false} DigitBelow(a: nat, n: nat, k: nat)
    requires a == n * 0x1_0000
    ensures Digit(a, k + 4) == Digit(n / 16, k)
  {
    assert a / 32 / 32 / 32 / 32 == n / 16;
    assert Digit(a, k + 4) == Digit(a / 32, k + 3);
    assert Digit(a / 32, k + 3) == Digit(a / 32 / 32, k + 2);
    assert Digit(a / 32 / 32, k + 2) == Digit(a / 32 / 32 / 32, k + 1);
  }

  predicate SameLowDigits(m: nat, n: nat)
  {
    && m % 16 == n % 16
    && m / 16 % 32 == n / 16 % 32
    && m / 16 / 32 % 32 == n / 16 / 32 % 32
    && m / 16 / 32 / 32 % 32 == n / 16 / 32 / 32 % 32
    && m / 16 / 32 / 32 / 32 % 32 == n / 16 / 32 / 32 / 32 % 32
  }

  /** Those digits say what the number is below 2^24, no more and no less. */
  lemma {:induction false} DigitsTell(m: nat, n: nat)
    ensures m % 0x100_0000 == n % 0x100_0000 <==> SameLowDigits(m, n)
  {
    Recombine(m);
    Recombine(n);
    FiveDigits(m % 16, m / 16 % 32, m / 16 / 32 % 32, m / 16 / 32 / 32 % 32, m / 16 / 32 / 32 / 32 % 32,
               n % 16, n / 16 % 32, n / 16 / 32 % 32, n / 16 / 32 / 32 % 32, n / 16 / 32 / 32 / 32 % 32);
  }

  /** A number tells its lowest digit and the number of the others. */
  lemma {:induction false} LowestDigit(base: nat, d: nat, r: nat, e: nat, s: nat)
    requires d < base && e < base
    ensures d + base * r == e + base * s <==> d == e && r == s
  {
    DivUnique(r, base, d);
    DivUnique(s, base, e);
    assert base * r == r * base && base * s == s * base;
  }

  lemma {:induction false} FiveDigits(d0: nat, d1: nat, d2: nat, d3: nat, d4: nat,
                                      e0: nat, e1: nat, e2: nat, e3: nat, e4: nat)
    requires d0 < 16 && d1 < 32 && d2 < 32 && d3 < 32 && e0 < 16 && e1 < 32 && e2 < 32 && e3 < 32
    ensures d0 + 16 * (d1 + 32 * (d2 + 32 * (d3 + 32 * d4))) == e0 + 16 * (e1 + 32 * (e2 + 32 * (e3 + 32 * e4)))
            <==> d0 == e0 && d1 == e1 && d2 == e2 && d3 == e3 && d4 == e4
  {
    LowestDigit(32, d3, d4, e3, e4);
    LowestDigit(32, d2, d3 + 32 * d4, e2, e3 + 32 * e4);
    LowestDigit(32, d1, d2 + 32 * (d3 + 32 * d4), e1, e2 + 32 * (e3 + 32 * e4));
    LowestDigit(16, d0, d1 + 32 * (d2 + 32 * (d3 + 32 * d4)), e0, e1 + 32 * (e2 + 32 * (e3 + 32 * e4)));
  }

  lemma {:induction false} Recombine(n: nat)
    ensures n % 0x100_0000
         == n % 16 + 16 * (n / 16 % 32 + 32 * (n / 16 / 32 % 32
              + 32 * (n / 16 / 32 / 32 % 32 + 32 * (n / 16 / 32 / 32 / 32 % 32))))
  {
  }

  lemma {:induction false} LowBytes(d: IdBytes)
    ensures Number(d) % 0x100_0000 == d.b2 as nat * 0x1_0000 + d.b3 as nat * 0x100 + d.b4 as nat
  {
  }

  predicate SameDigits(a: nat, b: nat)
  {
    && Digit(a, 0) == Digit(b, 0) && Digit(a, 1) == Digit(b, 1) && Digit(a, 2) == Digit(b, 2)
    && Digit(a, 3) == Digit(b, 3) && Digit(a, 4) == Digit(b, 4) && Digit(a, 5) == Digit(b, 5)
    && Digit(a, 6) == Digit(b, 6) && Digit(a, 7) == Digit(b, 7)
  }

  lemma {:induction false} SameIdSameDigits(d: IdBytes, e: IdBytes)
    ensures CrockfordId(d) == CrockfordId(e) <==> SameDigits(Accumulator(d), Accumulator(e))
  {
    hide Symbol, Digit, Accumulator;
    var a, b := Accumulator(d), Accumulator(e);
    if CrockfordId(d) == CrockfordId(e) {
      forall k | 0 <= k < 8 ensures Digit(a, k) == Digit(b, k) {
        assert CrockfordId(d)[7 - k] == Symbol(Digit(a, k)) && CrockfordId(e)[7 - k] == Symbol(Digit(b, k));
        SameSymbol(Digit(a, k), Digit(b, k));
      }
    }
  }

  lemma {:induction false} SameDigitsLow(m: nat, n: nat)
    ensures SameDigits(m * 0x1_0000, n * 0x1_0000) <==> SameLowDigits(m, n)
  {
    hide Digit;
    DigitsOf(m);
    DigitsOf(n);
  }

  lemma {:induction false} SameLowBytes(d: IdBytes, e: IdBytes)
    ensures Number(d) % 0x100_0000 == Number(e) % 0x100_0000 <==> d.b2 == e.b2 && d.b3 == e.b3 && d.b4 == e.b4
  {
    hide Number;
    LowBytes(d);
    LowBytes(e);
    var d2, d3, d4 := d.b2 as nat, d.b3 as nat, d.b4 as nat;
    var e2, e3, e4 := e.b2 as nat, e.b3 as nat, e.b4 as nat;
    LowestDigit(256, d3, d2, e3, e2);
    LowestDigit(256, d4, d3 + 256 * d2, e4, e3 + 256 * e2);
  }

  /** The id tells the last three of the five bytes and nothing about the first two. */
  lemma {:induction false} IdIsThreeBytes(d: IdBytes, e: IdBytes)
    ensures CrockfordId(d) == CrockfordId(e) <==> d.b2 == e.b2 && d.b3 == e.b3 && d.b4 == e.b4
  {
    hide CrockfordId, Number, SameDigits, SameLowDigits;
    SameIdSameDigits(d, e);
    SameDigitsLow(Number(d), Number(e));
    DigitsTell(Number(d), Number(e));
    SameLowBytes(d, e);
  }

  /** Its last three characters are always zeros. */
  lemma {:induction false} IdEndsInZeros(d: IdBytes)
    ensures CrockfordId(d)[5..] == "000"
  {
    hide Digit, Number;
    DigitsOf(Number(d));
  }

  // ---- credential strings -----------------------------------------------------------------

  function KindString(kind: KeyKind): string
  {
    match kind case SecretKey => "sk" case DeviceToken => "dv"
  }

  predicate IsIdChar(c: char) { c in CROCKFORD32 }

  predicate IsSecretChar(c: char)
  {
    'a' <= c <= 'z' || 'A' <= c <= 'Z' || '0' <= c <= '9' || c == '-' || c == '_'
  }

  predicate ValidId(id: string) { |id| == KEY_ID_LEN && forall k :: 0 <= k < |id| ==> IsIdChar(id[k]) }

  predicate ValidSecret(secret: string)
  {
    |secret| == KEY_SECRET_LEN && forall k :: 0 <= k < |secret| ==> IsSecretChar(secret[k])
  }

  predicate Contains(s: string, c: char) { exists k :: 0 <= k < |s| && s[k] == c }

  /** The position of the first underscore, or |s|. */
  function FirstUnderscore(s: string): (i: nat)
    ensures i <= |s|
  {
    if s == [] || s[0] == '_' then 0 else 1 + FirstUnderscore(s[1..])
  }

  lemma {:induction false} SplitAtFirst(a: string, b: string)
    requires !Contains(a, '_')
    ensures FirstUnderscore(a + "_" + b) == |a|
  {
    var s := a + "_" + b;
    if a == [] {
      assert s[0] == '_';
    } else {
      assert a[0] != '_' && s[0] == a[0];
      assert s[1..] == a[1..] + "_" + b;
      assert forall k :: 0 <= k < |a[1..]| ==> a[1..][k] == a[k + 1];
      SplitAtFirst(a[1..], b);
    }
  }

  lemma {:induction false} AroundUnderscore(s: string)
    ensures var i := FirstUnderscore(s);
            i < |s| ==> s == s[..i] + "_" + s[i + 1..]
  {
    FirstIsUnderscore(s);
  }

  lemma {:induction false} FirstIsUnderscore(s: string)
    ensures FirstUnderscore(s) < |s| ==> s[FirstUnderscore(s)] == '_'
  {
    if s != [] && s[0] != '_' {
      FirstIsUnderscore(s[1..]);
    }
  }

  function Format(kind: KeyKind, id: string, secret: string): string
  {
    KEY_PREFIX + KindString(kind) + "_" + id + "_" + secret
  }

  /** `parse_credential` */
  function Parse(cred: string): Result<Parsed>
  {
    if !(KEY_PREFIX <= cred) then InvalidFormat
    else
      var rest := cred[|KEY_PREFIX|..];
      var i := FirstUnderscore(rest);
      if i == |rest| || (rest[..i] != "sk" && rest[..i] != "dv") then InvalidFormat
      else
        var kind := if rest[..i] == "sk" then SecretKey else DeviceToken;
        var tail := rest[i + 1..];
        var j := FirstUnderscore(tail);
        if j == |tail| then InvalidFormat
        else
          var id, secret := tail[..j], tail[j + 1..];
          if ValidId(id) && ValidSecret(secret) then Ok(Parsed(kind, id, secret)) else InvalidFormat
  }

  lemma {:induction false} NoUnderscoreInId(id: string)
    requires ValidId(id)
    ensures !Contains(id, '_')
  {
    assert !IsIdChar('_');
  }

  /** A formatted credential parses back to its parts, even when the secret contains
      underscores. */
  lemma {:induction false} ParseOfFormat(kind: KeyKind, id: string, secret: string)
    requires ValidId(id) && ValidSecret(secret)
    ensures Parse(Format(kind, id, secret)) == Ok(Parsed(kind, id, secret))
  {
    hide ValidId, ValidSecret, FirstUnderscore, Contains;
    var tail := id + "_" + secret;
    var rest := KindString(kind) + "_" + tail;
    Rejoin(KEY_PREFIX, KindString(kind), id, secret);
    assert (KEY_PREFIX + rest)[|KEY_PREFIX|..] == rest;
    NoUnderscoreInKind(kind);
    NoUnderscoreInId(id);
    CutAtFirst(KindString(kind), tail);
    CutAtFirst(id, secret);
    assert "sk"[0] != "dv"[0];
  }

  lemma {:induction false} CutAtFirst(a: string, b: string)
    requires !Contains(a, '_')
    ensures var s := a + "_" + b;
            var i := FirstUnderscore(s);
            i < |s| && s[..i] == a && s[i + 1..] == b
  {
    SplitAtFirst(a, b);
  }

  lemma {:induction false} NoUnderscoreInKind(kind: KeyKind)
    ensures !Contains(KindString(kind), '_')
  {
  }

  /** Only a formatted credential parses. */
  lemma {:induction false} FormatOfParse(cred: string)
    ensures Parse(cred).Ok? ==>
      var p := Parse(cred).value;
      ValidId(p.id) && ValidSecret(p.secret) && cred == Format(p.kind, p.id, p.secret)
  {
    hide ValidId, ValidSecret, FirstUnderscore;
    if Parse(cred).Ok? {
      var p := Parse(cred).value;
      var rest := cred[|KEY_PREFIX|..];
      var i := FirstUnderscore(rest);
      AroundUnderscore(rest);
      var tail := rest[i + 1..];
      AroundUnderscore(tail);
      assert cred == KEY_PREFIX + rest;
      Rejoin(KEY_PREFIX, rest[..i], p.id, p.secret);
    }
  }

  lemma {:induction false} Rejoin(prefix: string, kind: string, id: string, secret: string)
    ensures prefix + (kind + "_" + (id + "_" + secret)) == prefix + kind + "_" + id + "_" + secret
  {
  }

  /** Every id that is issued can be part of a credential. */
  lemma {:induction false} IdIsValid(d: IdBytes)
    ensures ValidId(CrockfordId(d))
  {
    hide Digit, Accumulator;
    var a, id := Accumulator(d), CrockfordId(d);
    forall k | 0 <= k < |id| ensures IsIdChar(id[k]) {
      assert id[k] == Symbol(Digit(a, 7 - k));
      SymbolInAlphabet(Digit(a, 7 - k));
    }
  }

  lemma {:induction false} SymbolInAlphabet(v: nat)
    requires v < 32
    ensures IsIdChar(Symbol(v))
  {
    assert CROCKFORD32[v] in CROCKFORD32;
  }

  // ---- what an id and a credential look like --------------------------------------------------

  /** The place of a character in an alphabet. */
  function Place(c: char, alphabet: string): nat
  {
    if alphabet == "" || alphabet[0] == c then 0 else 1 + Place(c, alphabet[1..])
  }

  /** The number that these digits spell, the first the highest. */
  function Spelled(digits: string, alphabet: string): nat
  {
    if digits == "" then 0
    else Spelled(digits[..|digits| - 1], alphabet) * |alphabet| + Place(digits[|digits| - 1], alphabet)
  }

  lemma {:induction false} PlaceOf(alphabet: string, v: nat)
    requires v < |alphabet| && forall i :: 0 <= i < v ==> alphabet[i] != alphabet[v]
    ensures Place(alphabet[v], alphabet) == v
  {
    if v > 0 {
      assert alphabet[1..][v - 1] == alphabet[v];
      assert forall i :: 0 <= i < v - 1 ==> alphabet[1..][i] == alphabet[i + 1];
      PlaceOf(alphabet[1..], v - 1);
    }
  }

  lemma {:induction false} PlaceOfSymbol(v: nat)
    requires v < 32
    ensures Place(Symbol(v), "0123456789abcdefghjkmnpqrstvwxyz") == v
  {
    forall i | 0 <= i < v ensures CROCKFORD32[i] != CROCKFORD32[v] {
      SymbolInjective(i, v);
    }
    PlaceOf(CROCKFORD32, v);
  }

  lemma {:induction false} SpelledMore(digits: string, c: char, alphabet: string)
    ensures Spelled(digits + [c], alphabet) == Spelled(digits, alphabet) * |alphabet| + Place(c, alphabet)
  {
    assert (digits + [c])[..|digits|] == digits;
  }

  /** An id spells, in the base of its alphabet, the last three of the bytes and two bytes
      of zeros. */
  lemma {:induction false} IdSpells(d: IdBytes)
    ensures Spelled(CrockfordId(d), "0123456789abcdefghjkmnpqrstvwxyz")
         == (d.b2 as nat * 0x1_0000 + d.b3 as nat * 0x100 + d.b4 as nat) * 0x1_0000
  {
    hide Digit, Symbol, Number, Place, Spelled;
    var alphabet := "0123456789abcdefghjkmnpqrstvwxyz";
    var a, n := Accumulator(d), Number(d);
    var s7, s6, s5, s4 := Symbol(Digit(a, 7)), Symbol(Digit(a, 6)), Symbol(Digit(a, 5)), Symbol(Digit(a, 4));
    var s3, s2, s1, s0 := Symbol(Digit(a, 3)), Symbol(Digit(a, 2)), Symbol(Digit(a, 1)), Symbol(Digit(a, 0));
    assert CrockfordId(d) == [] + [s7] + [s6] + [s5] + [s4] + [s3] + [s2] + [s1] + [s0];
    NoneSpelled(alphabet);
    SpelledMore([], s7, alphabet);
    SpelledMore([] + [s7], s6, alphabet);
    SpelledMore([] + [s7] + [s6], s5, alphabet);
    SpelledMore([] + [s7] + [s6] + [s5], s4, alphabet);
    SpelledMore([] + [s7] + [s6] + [s5] + [s4], s3, alphabet);
    SpelledMore([] + [s7] + [s6] + [s5] + [s4] + [s3], s2, alphabet);
    SpelledMore([] + [s7] + [s6] + [s5] + [s4] + [s3] + [s2], s1, alphabet);
    SpelledMore([] + [s7] + [s6] + [s5] + [s4] + [s3] + [s2] + [s1], s0, alphabet);
    forall k | 0 <= k < 8 ensures Place(Symbol(Digit(a, k)), alphabet) == Digit(a, k) {
      PlaceOfSymbol(Digit(a, k));
    }
    DigitsOf(n);
    Recombine(n);
    LowBytes(d);
  }

  lemma NoneSpelled(alphabet: string)
    ensures Spelled([], alphabet) == 0
  {
  }

  /** A credential written out: eight characters of the alphabet of ids and forty-three of
      base64url. */
  ghost predicate IsCredential(cred: string, kind: KeyKind, id: string, secret: string)
  {
    && cred == (match kind case SecretKey => "atpc_sk_" case DeviceToken => "atpc_dv_") + id + "_" + secret
    && |id| == 8 && (forall k :: 0 <= k < |id| ==> id[k] in "0123456789abcdefghjkmnpqrstvwxyz")
    && |secret| == 43
    && (forall k :: 0 <= k < |secret| ==>
          || 'A' <= secret[k] <= 'Z' || 'a' <= secret[k] <= 'z' || '0' <= secret[k] <= '9'
          || secret[k] in {'-', '_'})
  }

  /** A string parses exactly when it is a credential of that form, and into its parts. */
  lemma {:induction false} ParsesWhen(cred: string, kind: KeyKind, id: string, secret: string)
    ensures Parse(cred) == Ok(Parsed(kind, id, secret)) <==> IsCredential(cred, kind, id, secret)
  {
    hide Parse, FirstUnderscore;
    FormatOfParse(cred);
    assert "atpc_" + "sk" + "_" == "atpc_sk_" && "atpc_" + "dv" + "_" == "atpc_dv_";
    if IsCredential(cred, kind, id, secret) {
      ParseOfFormat(kind, id, secret);
    }
  }
}
