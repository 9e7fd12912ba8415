/**
 * The letter-substitution cipher: a per-letter map built from two integer shifts,
 * its inverse, and the character-wise encryption and decryption of a text.
 */
module Cipher {
  import opened Wrappers
  import opened Text

  /** The encryption map and its inverse. */
  datatype CipherMaps = CipherMaps(enc: map<char, char>, dec: map<char, char>)

  /** `c` lies in the 26-letter block that starts at `base`. */
  predicate InBlock(c: char, base: char) {
    base as int <= c as int < base as int + 26
  }

  /** Moves `c` by `delta` places within the 26-letter block starting at `base`, wrapping around. */
  function ShiftChar(c: char, delta: int, base: char): (r: char)
    requires base as int + 26 <= 0xD800
    ensures InBlock(r, base)
    ensures (r as int - c as int - delta) % 26 == 0
  {
    (base as int + (c as int - base as int + delta) % 26) as char
  }

  lemma ModAddLeft(x: int, y: int)
    ensures (x % 26 + y) % 26 == (x + y) % 26
  {
    var q := x / 26;
    assert x == 26 * q + x % 26;
    assert x + y == 26 * q + (x % 26 + y);
  }

  /** Two shifts in the same block add up. */
  lemma ShiftCharCompose(c: char, d: int, e: int, base: char)
    requires base as int + 26 <= 0xD800
    ensures ShiftChar(ShiftChar(c, d, base), e, base) == ShiftChar(c, d + e, base)
  {
    ModAddLeft(c as int - base as int + d, e);
  }

  /** Shifting a letter of the block back by the same amount restores it. */
  lemma ShiftCharInverse(c: char, d: int, base: char)
    requires base as int + 26 <= 0xD800 && InBlock(c, base)
    ensures ShiftChar(ShiftChar(c, d, base), -d, base) == c
  {
    ShiftCharCompose(c, d, -d, base);
  }

  predicate IsLower(c: char) { 'a' <= c <= 'z' }

  predicate IsUpper(c: char) { 'A' <= c <= 'Z' }

  predicate IsLetter(c: char) { IsLower(c) || IsUpper(c) }

  /** The letters in the order the map is filled: 'a'..'z', then 'A'..'Z'. */
  const Letters: seq<char> :=
    seq(26, i requires 0 <= i < 26 => ('a' as int + i) as char)
    + seq(26, i requires 0 <= i < 26 => ('A' as int + i) as char)

  lemma LettersAreLetters()
    ensures |Letters| == 52 && Distinct(Letters)
    ensures forall c :: c in Letters <==> IsLetter(c)
  {
    forall c | IsLetter(c) ensures c in Letters {
      if IsLower(c) {
        assert Letters[c as int - 'a' as int] == c;
      } else {
        assert Letters[26 + c as int - 'A' as int] == c;
      }
    }
  }

  /** The rule each letter is encrypted by: four half-alphabets, four shifts. */
  function LetterShift(c: char, shift1: int, shift2: int): char {
    if 'a' <= c <= 'm' then ShiftChar(c, shift1 * shift2, 'a')
    else if 'n' <= c <= 'z' then ShiftChar(c, -(shift1 + shift2), 'a')
    else if 'A' <= c <= 'M' then ShiftChar(c, -shift1, 'A')
    else ShiftChar(c, shift2 * shift2, 'A')
  }

  /** The encryption map for the two shifts: every letter to its shifted letter of the same case. */
  function EncodingMap(shift1: int, shift2: int): (enc: map<char, char>)
    ensures forall c :: c in enc <==> IsLetter(c)
    ensures forall c :: c in enc ==> (IsLower(c) <==> IsLower(enc[c])) && (IsUpper(c) <==> IsUpper(enc[c]))
  {
    map c: char | IsLetter(c) :: LetterShift(c, shift1, shift2)
  }

  /** No two keys of `m` share a value. */
  predicate Injective(m: map<char, char>) {
    forall a, b :: a in m && b in m && m[a] == m[b] ==> a == b
  }

  /** No two positions of `keys` are sent to the same value. */
  predicate InjectiveOn(m: map<char, char>, keys: seq<char>)
    requires forall i :: 0 <= i < |keys| ==> keys[i] in m
  {
    forall i, j :: 0 <= i < j < |keys| ==> m[keys[i]] != m[keys[j]]
  }

  /** The image of the first `n` positions of `keys`. */
  ghost function ImageOf(m: map<char, char>, keys: seq<char>): set<char>
    requires forall i :: 0 <= i < |keys| ==> keys[i] in m
  {
    set i | 0 <= i < |keys| :: m[keys[i]]
  }

  lemma ImageOfSnoc(enc: map<char, char>, keys: seq<char>)
    requires forall i :: 0 <= i < |keys| ==> keys[i] in enc
    requires keys != []
    ensures ImageOf(enc, keys) == ImageOf(enc, keys[..|keys| - 1]) + {enc[keys[|keys| - 1]]}
  {
    var prefix := keys[..|keys| - 1];
    forall v | v in ImageOf(enc, keys) ensures v in ImageOf(enc, prefix) + {enc[keys[|keys| - 1]]} {
      var i :| 0 <= i < |keys| && enc[keys[i]] == v;
      if i < |keys| - 1 {
        assert prefix[i] == keys[i];
      }
    }
    forall v | v in ImageOf(enc, prefix) ensures v in ImageOf(enc, keys) {
      var i :| 0 <= i < |prefix| && enc[prefix[i]] == v;
      assert keys[i] == prefix[i];
    }
    assert enc[keys[|keys| - 1]] in ImageOf(enc, keys);
  }

  /**
   * `{v: k for k, v in enc.items()}` when `enc` was filled in the order `keys`:
   * a later key overwrites an earlier one that has the same value.
   */
  function Invert(enc: map<char, char>, keys: seq<char>): (dec: map<char, char>)
    requires forall i :: 0 <= i < |keys| ==> keys[i] in enc
    ensures dec.Keys == ImageOf(enc, keys)
    ensures forall v :: v in dec ==> dec[v] in keys && enc[dec[v]] == v
  {
    if keys == [] then map[]
    else
      var last := keys[|keys| - 1];
      var prefix := keys[..|keys| - 1];
      ImageOfSnoc(enc, keys);
      Invert(enc, prefix)[enc[last] := last]
  }

  /** Extending the fill order keeps it collision-free exactly when the new value is new. */
  lemma InjectiveOnSnoc(enc: map<char, char>, keys: seq<char>)
    requires forall i :: 0 <= i < |keys| ==> keys[i] in enc
    requires keys != []
    ensures InjectiveOn(enc, keys) <==>
      InjectiveOn(enc, keys[..|keys| - 1]) && enc[keys[|keys| - 1]] !in ImageOf(enc, keys[..|keys| - 1])
  {
    var n := |keys| - 1;
    var prefix := keys[..n];
    if InjectiveOn(enc, keys) {
      forall i, j | 0 <= i < j < |prefix| ensures enc[prefix[i]] != enc[prefix[j]] {
        assert prefix[i] == keys[i] && prefix[j] == keys[j];
      }
      forall i | 0 <= i < |prefix| ensures enc[prefix[i]] != enc[keys[n]] {
        assert prefix[i] == keys[i];
      }
    }
    if InjectiveOn(enc, prefix) && enc[keys[n]] !in ImageOf(enc, prefix) {
      forall i, j | 0 <= i < j < |keys| ensures enc[keys[i]] != enc[keys[j]] {
        assert keys[i] == prefix[i];
        if j < n {
          assert keys[j] == prefix[j];
        } else {
          assert enc[prefix[i]] in ImageOf(enc, prefix);
        }
      }
    }
  }

  /** Inverting one more key adds an entry exactly when its value is new. */
  lemma InvertSnocSize(enc: map<char, char>, keys: seq<char>)
    requires forall i :: 0 <= i < |keys| ==> keys[i] in enc
    requires keys != []
    ensures var prefix := keys[..|keys| - 1];
      |Invert(enc, keys)| == |Invert(enc, prefix)| + (if enc[keys[|keys| - 1]] in ImageOf(enc, prefix) then 0 else 1)
  {
    var n := |keys| - 1;
    var before := Invert(enc, keys[..n]);
    assert Invert(enc, keys) == before[enc[keys[n]] := keys[n]];
    if enc[keys[n]] in before {
      assert Invert(enc, keys).Keys == before.Keys;
    } else {
      assert Invert(enc, keys).Keys == before.Keys + {enc[keys[n]]};
    }
  }

  /** The inverse has as many entries as there are keys exactly when no two keys collide. */
  lemma {:induction false} InvertSize(enc: map<char, char>, keys: seq<char>)
    requires forall i :: 0 <= i < |keys| ==> keys[i] in enc
    ensures |Invert(enc, keys)| <= |keys|
    ensures |Invert(enc, keys)| == |keys| <==> InjectiveOn(enc, keys)
  {
    if keys != [] {
      var prefix := keys[..|keys| - 1];
      InvertSize(enc, prefix);
      InjectiveOnSnoc(enc, keys);
      InvertSnocSize(enc, keys);
    }
  }

  lemma {:induction false} DistinctCard(s: seq<char>)
    requires Distinct(s)
    ensures |set x | x in s| == |s|
  {
    if s != [] {
      var n := |s| - 1;
      DistinctCard(s[..n]);
      assert (set x | x in s) == (set x | x in s[..n]) + {s[n]};
      assert s[n] !in s[..n];
    }
  }

  /** On the letters, injectivity over the keys and over the fill order agree. */
  lemma InjectiveOnLetters(enc: map<char, char>)
    requires forall c :: c in enc <==> IsLetter(c)
    ensures forall i :: 0 <= i < |Letters| ==> Letters[i] in enc
    ensures InjectiveOn(enc, Letters) <==> Injective(enc)
    ensures |enc| == |Letters|
  {
    LettersAreLetters();
    assert enc.Keys == set x | x in Letters;
    DistinctCard(Letters);
    if InjectiveOn(enc, Letters) {
      forall a, b | a in enc && b in enc && enc[a] == enc[b] ensures a == b {
        var i :| 0 <= i < |Letters| && Letters[i] == a;
        var j :| 0 <= j < |Letters| && Letters[j] == b;
        assert i == j;
      }
    }
  }

  /** `dec` undoes `enc` on every key, and has no key that `enc` lacks. */
  predicate Inverts(maps: CipherMaps) {
    (forall c :: c in maps.enc ==> maps.enc[c] in maps.dec && maps.dec[maps.enc[c]] == c)
    && (forall v :: v in maps.dec ==> v in maps.enc)
  }

  /**
   * Fills the encryption map letter by letter, inverts it, and raises an error
   * when two letters are encrypted to the same letter.
   */
  method BuildCipherMaps(shift1: int, shift2: int) returns (r: Result<CipherMaps, string>)
    ensures r.Success? <==> Injective(EncodingMap(shift1, shift2))
    ensures r.Success? ==> r.value.enc == EncodingMap(shift1, shift2) && Inverts(r.value)
  {
    var enc: map<char, char> := map[];
    for code := 'a' as int to 'z' as int + 1
      invariant forall c :: c in enc <==> 'a' as int <= c as int < code
      invariant forall c :: c in enc ==> enc[c] == LetterShift(c, shift1, shift2)
    {
      var ch := code as char;
      var delta;
      if 'a' <= ch <= 'm' {
        delta := shift1 * shift2;
      } else {
        delta := -(shift1 + shift2);
      }
      enc := enc[ch := ShiftChar(ch, delta, 'a')];
    }
    for code := 'A' as int to 'Z' as int + 1
      invariant forall c :: c in enc <==> IsLower(c) || 'A' as int <= c as int < code
      invariant forall c :: c in enc ==> enc[c] == LetterShift(c, shift1, shift2)
    {
      var ch := code as char;
      var delta;
      if 'A' <= ch <= 'M' {
        delta := -shift1;
      } else {
        delta := shift2 * shift2;
      }
      enc := enc[ch := ShiftChar(ch, delta, 'A')];
    }
    assert enc == EncodingMap(shift1, shift2);
    InjectiveOnLetters(enc);
    var dec := Invert(enc, Letters);
    InvertSize(enc, Letters);
    if |dec| != |enc| {
      return Failure("Cipher mapping is not reversible, but it should be.");
    }
    forall c | c in enc ensures enc[c] in dec && dec[enc[c]] == c {
      LettersAreLetters();
      var i :| 0 <= i < |Letters| && Letters[i] == c;
      assert enc[Letters[i]] in ImageOf(enc, Letters);
    }
    r := Success(CipherMaps(enc, dec));
  }

  // ----- when the maps can be built -----

  /** The offset within its block of the letter at offset `i`, the first half shifted by `lo` and the second by `hi`. */
  function HalfShift(i: int, lo: int, hi: int): int {
    if i < 13 then (i + lo) % 26 else (i + hi) % 26
  }

  /** No two offsets of a block share a shifted offset. */
  predicate HalvesInjective(lo: int, hi: int) {
    forall i, j :: 0 <= i < 26 && 0 <= j < 26 && HalfShift(i, lo, hi) == HalfShift(j, lo, hi) ==> i == j
  }

  /** Adding a multiple of 26 does not change a remainder modulo 26. */
  lemma ModOfMultiple(k: int, x: int)
    ensures (26 * k + x) % 26 == x % 26
  {
  }

  /** A number is a multiple of 26 exactly when its negation is. */
  lemma NegatedMultiple(x: int)
    ensures (-x) % 26 == 0 <==> x % 26 == 0
  {
    if x % 26 == 0 {
      assert -x == 26 * -(x / 26);
      ModOfMultiple(-(x / 26), 0);
    }
    if (-x) % 26 == 0 {
      assert x == 26 * -((-x) / 26);
      ModOfMultiple(-((-x) / 26), 0);
    }
  }

  /** Two offsets of a block shifted by the same amount land apart. */
  lemma ShiftApart(i: int, j: int, d: int)
    requires 0 <= i < 26 && 0 <= j < 26 && (i + d) % 26 == (j + d) % 26
    ensures i == j
  {
    var q := (i + d) / 26;
    var p := (j + d) / 26;
    assert i - j == 26 * (q - p);
  }

  /** Shifts that agree modulo 26 move an offset to the same place. */
  lemma CongruentShifts(i: int, lo: int, hi: int)
    requires (lo - hi) % 26 == 0
    ensures (i + hi) % 26 == (i + lo) % 26
  {
    var m := (lo - hi) / 26;
    assert i + lo == 26 * m + (i + hi);
    ModOfMultiple(m, i + hi);
  }

  /** Half-alphabet shifts that agree modulo 26 form one rotation, which keeps offsets apart. */
  lemma AgreeingHalvesInjective(lo: int, hi: int)
    requires (lo - hi) % 26 == 0
    ensures HalvesInjective(lo, hi)
  {
    forall i, j | 0 <= i < 26 && 0 <= j < 26 && HalfShift(i, lo, hi) == HalfShift(j, lo, hi) ensures i == j {
      CongruentShifts(i, lo, hi);
      CongruentShifts(j, lo, hi);
      ShiftApart(i, j, lo);
    }
  }

  /** Half-alphabet shifts that differ modulo 26 send a letter of each half to the same place. */
  lemma SplitHalvesCollide(lo: int, hi: int)
    requires (lo - hi) % 26 != 0
    ensures !HalvesInjective(lo, hi)
  {
    var k := (hi - lo) % 26;
    var m := (hi - lo) / 26;
    assert hi == lo + 26 * m + k;
    if k <= 13 {
      ModOfMultiple(m + 1, lo);
      assert HalfShift(0, lo, hi) == HalfShift(26 - k, lo, hi);
    } else {
      ModOfMultiple(m + 1, 12 + lo);
      assert HalfShift(12, lo, hi) == HalfShift(38 - k, lo, hi);
    }
  }

  /** Shifting two half-alphabets keeps them apart exactly when the two shifts agree modulo 26. */
  lemma HalvesInjectiveIff(lo: int, hi: int)
    ensures HalvesInjective(lo, hi) <==> (lo - hi) % 26 == 0
  {
    if (lo - hi) % 26 == 0 {
      AgreeingHalvesInjective(lo, hi);
    } else {
      SplitHalvesCollide(lo, hi);
    }
  }

  /** A lower-case letter is encrypted to the letter at its shifted offset. */
  lemma LowerOffset(c: char, shift1: int, shift2: int)
    requires IsLower(c)
    ensures LetterShift(c, shift1, shift2) as int - 'a' as int == HalfShift(c as int - 'a' as int, shift1 * shift2, -(shift1 + shift2))
  {
  }

  /** An upper-case letter is encrypted to the letter at its shifted offset. */
  lemma UpperOffset(c: char, shift1: int, shift2: int)
    requires IsUpper(c)
    ensures LetterShift(c, shift1, shift2) as int - 'A' as int == HalfShift(c as int - 'A' as int, -shift1, shift2 * shift2)
  {
  }

  /** A collision-free encryption map keeps the halves of each case apart. */
  lemma InjectiveKeepsHalves(shift1: int, shift2: int)
    requires Injective(EncodingMap(shift1, shift2))
    ensures HalvesInjective(shift1 * shift2, -(shift1 + shift2)) && HalvesInjective(-shift1, shift2 * shift2)
  {
    var enc := EncodingMap(shift1, shift2);
    var lo, hi := shift1 * shift2, -(shift1 + shift2);
    var ulo, uhi := -shift1, shift2 * shift2;
    forall i, j | 0 <= i < 26 && 0 <= j < 26 && HalfShift(i, lo, hi) == HalfShift(j, lo, hi) ensures i == j {
      var a, b := ('a' as int + i) as char, ('a' as int + j) as char;
      LowerOffset(a, shift1, shift2);
      LowerOffset(b, shift1, shift2);
      assert enc[a] == enc[b];
    }
    forall i, j | 0 <= i < 26 && 0 <= j < 26 && HalfShift(i, ulo, uhi) == HalfShift(j, ulo, uhi) ensures i == j {
      var a, b := ('A' as int + i) as char, ('A' as int + j) as char;
      UpperOffset(a, shift1, shift2);
      UpperOffset(b, shift1, shift2);
      assert enc[a] == enc[b];
    }
  }

  /** Halves kept apart in both cases make the encryption map collision-free, the cases never meeting. */
  lemma HalvesMakeInjective(shift1: int, shift2: int)
    requires HalvesInjective(shift1 * shift2, -(shift1 + shift2)) && HalvesInjective(-shift1, shift2 * shift2)
    ensures Injective(EncodingMap(shift1, shift2))
  {
    var enc := EncodingMap(shift1, shift2);
    forall a, b | a in enc && b in enc && enc[a] == enc[b] ensures a == b {
      if IsLower(a) {
        LowerOffset(a, shift1, shift2);
        LowerOffset(b, shift1, shift2);
      } else {
        UpperOffset(a, shift1, shift2);
        UpperOffset(b, shift1, shift2);
      }
    }
  }

  /** The encryption map is injective exactly when each case keeps its halves apart. */
  lemma InjectiveByCase(shift1: int, shift2: int)
    ensures Injective(EncodingMap(shift1, shift2)) <==>
      HalvesInjective(shift1 * shift2, -(shift1 + shift2)) && HalvesInjective(-shift1, shift2 * shift2)
  {
    if Injective(EncodingMap(shift1, shift2)) {
      InjectiveKeepsHalves(shift1, shift2);
    }
    if HalvesInjective(shift1 * shift2, -(shift1 + shift2)) && HalvesInjective(-shift1, shift2 * shift2) {
      HalvesMakeInjective(shift1, shift2);
    }
  }

  /** For offsets below 26, both congruences hold only at zero. */
  lemma ResidueCases(r1: int, r2: int)
    requires 0 <= r1 < 26 && 0 <= r2 < 26
    ensures (r1 * r2 + r1 + r2) % 26 == 0 && (r1 + r2 * r2) % 26 == 0 <==> r1 == 0 && r2 == 0
  {
    assert r2 == 0 || r2 == 1 || r2 == 2 || r2 == 3 || r2 == 4 || r2 == 5 || r2 == 6 || r2 == 7 || r2 == 8
      || r2 == 9 || r2 == 10 || r2 == 11 || r2 == 12 || r2 == 13 || r2 == 14 || r2 == 15 || r2 == 16
      || r2 == 17 || r2 == 18 || r2 == 19 || r2 == 20 || r2 == 21 || r2 == 22 || r2 == 23 || r2 == 24 || r2 == 25;
  }

  /** The lower-case congruence depends on the shifts modulo 26 only. */
  lemma LowerCongruence(shift1: int, shift2: int)
    ensures (shift1 * shift2 + shift1 + shift2) % 26
      == ((shift1 % 26) * (shift2 % 26) + shift1 % 26 + shift2 % 26) % 26
  {
    var q1, r1 := shift1 / 26, shift1 % 26;
    var q2, r2 := shift2 / 26, shift2 % 26;
    var k := 26 * q1 * q2 + q1 * r2 + r1 * q2 + q1 + q2;
    assert shift1 * shift2 + shift1 + shift2 == 26 * k + (r1 * r2 + r1 + r2);
    ModOfMultiple(k, r1 * r2 + r1 + r2);
  }

  /** The upper-case congruence depends on the shifts modulo 26 only. */
  lemma UpperCongruence(shift1: int, shift2: int)
    ensures (shift1 + shift2 * shift2) % 26 == (shift1 % 26 + (shift2 % 26) * (shift2 % 26)) % 26
  {
    var q1, r1 := shift1 / 26, shift1 % 26;
    var q2, r2 := shift2 / 26, shift2 % 26;
    var k := q1 + 26 * q2 * q2 + 2 * q2 * r2;
    assert shift1 + shift2 * shift2 == 26 * k + (r1 + r2 * r2);
    ModOfMultiple(k, r1 + r2 * r2);
  }

  /**
   * The maps can be built exactly when both shifts are multiples of 26: the lower-case halves stay apart
   * only when `shift1*shift2 + shift1 + shift2` is, and the upper-case halves only when `shift1 + shift2**2` is.
   */
  lemma BuildableIff(shift1: int, shift2: int)
    ensures Injective(EncodingMap(shift1, shift2)) <==> shift1 % 26 == 0 && shift2 % 26 == 0
  {
    InjectiveByCase(shift1, shift2);
    HalvesByShifts(shift1, shift2);
  }

  /** Both cases keep their halves apart exactly when both shifts are multiples of 26. */
  lemma HalvesByShifts(shift1: int, shift2: int)
    ensures HalvesInjective(shift1 * shift2, -(shift1 + shift2)) && HalvesInjective(-shift1, shift2 * shift2)
      <==> shift1 % 26 == 0 && shift2 % 26 == 0
  {
    var lo := shift1 * shift2 + shift1 + shift2;
    var up := shift1 + shift2 * shift2;
    HalvesInjectiveIff(shift1 * shift2, -(shift1 + shift2));
    assert shift1 * shift2 - -(shift1 + shift2) == lo;
    HalvesInjectiveIff(-shift1, shift2 * shift2);
    assert -shift1 - shift2 * shift2 == -up;
    NegatedMultiple(up);
    CongruencesAtZero(shift1, shift2);
  }

  /** Both congruences hold exactly when both shifts are multiples of 26. */
  lemma CongruencesAtZero(shift1: int, shift2: int)
    ensures (shift1 * shift2 + shift1 + shift2) % 26 == 0 && (shift1 + shift2 * shift2) % 26 == 0
      <==> shift1 % 26 == 0 && shift2 % 26 == 0
  {
    LowerCongruence(shift1, shift2);
    UpperCongruence(shift1, shift2);
    ResidueCases(shift1 % 26, shift2 % 26);
  }

  /** A shift by a multiple of 26 leaves a letter of the block in place. */
  lemma WholeTurns(c: char, d: int, base: char)
    requires base as int + 26 <= 0xD800 && InBlock(c, base) && d % 26 == 0
    ensures ShiftChar(c, d, base) == c
  {
    assert c as int - base as int + d == 26 * (d / 26) + (c as int - base as int);
    ModOfMultiple(d / 26, c as int - base as int);
  }

  /** When both shifts are multiples of 26, so are the four shifts the rules derive from them. */
  lemma RuleShiftsVanish(shift1: int, shift2: int)
    requires shift1 % 26 == 0 && shift2 % 26 == 0
    ensures (shift1 * shift2) % 26 == 0 && (-(shift1 + shift2)) % 26 == 0
    ensures (-shift1) % 26 == 0 && (shift2 * shift2) % 26 == 0
  {
    var q1, q2 := shift1 / 26, shift2 / 26;
    assert shift1 * shift2 == 26 * (q1 * shift2);
    ModOfMultiple(q1 * shift2, 0);
    assert shift2 * shift2 == 26 * (q2 * shift2);
    ModOfMultiple(q2 * shift2, 0);
    NegatedMultiple(shift1 + shift2);
    NegatedMultiple(shift1);
  }

  /** Whenever the maps can be built, encryption leaves every letter as it is. */
  lemma BuildableIsIdentity(shift1: int, shift2: int)
    requires Injective(EncodingMap(shift1, shift2))
    ensures forall c :: c in EncodingMap(shift1, shift2) ==> EncodingMap(shift1, shift2)[c] == c
  {
    BuildableIff(shift1, shift2);
    RuleShiftsVanish(shift1, shift2);
    forall c | IsLetter(c) ensures LetterShift(c, shift1, shift2) == c {
      if 'a' <= c <= 'm' {
        WholeTurns(c, shift1 * shift2, 'a');
      } else if 'n' <= c <= 'z' {
        WholeTurns(c, -(shift1 + shift2), 'a');
      } else if 'A' <= c <= 'M' {
        WholeTurns(c, -shift1, 'A');
      } else {
        WholeTurns(c, shift2 * shift2, 'A');
      }
    }
  }

  /** The shifts 1 and 2, for example, are rejected. */
  lemma SmallShiftsRejected()
    ensures !Injective(EncodingMap(1, 2))
  {
    BuildableIff(1, 2);
  }

  /** Python's `m.get(c, c)`: the mapped character, or `c` itself when it is not a key. */
  function Lookup(m: map<char, char>, c: char): char {
    if c in m then m[c] else c
  }

  /** The text with every character looked up in `m`. */
  function Translate(m: map<char, char>, text: string): (r: string)
    ensures |r| == |text|
  {
    if text == [] then [] else [Lookup(m, text[0])] + Translate(m, text[1..])
  }

  /** The translation is character-wise: position `i` depends on position `i` only. */
  lemma {:induction false} TranslateAt(m: map<char, char>, text: string, i: int)
    requires 0 <= i < |text|
    ensures Translate(m, text)[i] == Lookup(m, text[i])
  {
    if i > 0 {
      TranslateAt(m, text[1..], i - 1);
    }
  }

  /** Decrypting an encrypted text gives the text back. */
  lemma {:induction false} DecryptEncrypt(maps: CipherMaps, text: string)
    requires Inverts(maps)
    ensures Translate(maps.dec, Translate(maps.enc, text)) == text
  {
    if text != [] {
      DecryptEncrypt(maps, text[1..]);
      assert Lookup(maps.dec, Lookup(maps.enc, text[0])) == text[0];
    }
  }

  /** The character loop shared by `encrypt_text` and `decrypt_text`. */
  method TranslateText(text: string, m: map<char, char>) returns (r: string)
    ensures |r| == |text|
    ensures forall i :: 0 <= i < |text| ==> r[i] == Lookup(m, text[i])
    ensures r == Translate(m, text)
  {
    var outChars: seq<char> := [];
    for i := 0 to |text|
      invariant |outChars| == i
      invariant forall k :: 0 <= k < i ==> outChars[k] == Lookup(m, text[k])
    {
      outChars := outChars + [Lookup(m, text[i])];
    }
    r := outChars;
    forall i | 0 <= i < |text| ensures r[i] == Translate(m, text)[i] {
      TranslateAt(m, text, i);
    }
  }

  /** Encrypts `text`; characters that are not letters pass through unchanged. */
  method EncryptText(text: string, maps: CipherMaps) returns (r: string)
    ensures |r| == |text|
    ensures forall i :: 0 <= i < |text| ==> r[i] == Lookup(maps.enc, text[i])
    ensures r == Translate(maps.enc, text)
  {
    r := TranslateText(text, maps.enc);
  }

  /** Decrypts `text` with the inverse map. */
  method DecryptText(text: string, maps: CipherMaps) returns (r: string)
    ensures |r| == |text|
    ensures forall i :: 0 <= i < |text| ==> r[i] == Lookup(maps.dec, text[i])
    ensures r == Translate(maps.dec, text)
  {
    r := TranslateText(text, maps.dec);
  }

  /**
   * The program's run with its files replaced by strings: build the maps, encrypt the
   * raw text, decrypt the result and compare it with the raw text.
   */
  method EncryptDecryptVerify(shift1: int, shift2: int, raw: string) returns (r: Result<bool, string>)
    ensures r.Failure? <==> !Injective(EncodingMap(shift1, shift2))
    ensures r.Success? ==> r.value
  {
    var built := BuildCipherMaps(shift1, shift2);
    match built
    case Failure(e) =>
      r := Failure(e);
    case Success(maps) =>
      var encrypted := EncryptText(raw, maps);
      var decrypted := DecryptText(encrypted, maps);
      DecryptEncrypt(maps, raw);
      r := Success(raw == decrypted);
  }
}
