/** The base 64 encoding of section 4 of RFC 4648, group by group, and the decoding the library
    performs: total on every input whose length is a positive multiple of 4, whatever its
    characters. Characters and octets are both numbers below 256. */
module Base64Model {

  type Octet = x: nat | x < 256

  type Sextet = x: nat | x < 64

  /** '='. */
  const PAD: Octet := 61

  /** The alphabet of table 1 of RFC 4648: A-Z, a-z, 0-9, '+', '/'. */
  function Symbol(v: Sextet): Octet {
    if v < 26 then 65 + v
    else if v < 52 then 97 + (v - 26)
    else if v < 62 then 48 + (v - 52)
    else if v == 62 then 43
    else 47
  }

  /** Table 1 of RFC 4648, as printed. */
  const UPPER: string := "ABCDEFGHIJKLMNOPQRSTUVWXYZ"
  const LOWER: string := "abcdefghijklmnopqrstuvwxyz"
  const DIGITS: string := "0123456789"
  const ALPHABET: string := UPPER + LOWER + DIGITS + "+/"

  lemma RowsAsPrinted(i: nat)
    ensures |UPPER| == |LOWER| == 26 && |DIGITS| == 10
    ensures i < 26 ==> UPPER[i] as int == 65 + i && LOWER[i] as int == 97 + i
    ensures i < 10 ==> DIGITS[i] as int == 48 + i
  {
  }

  /** The symbol of a value is the character printed there; the padding character is '='. */
  lemma SymbolsAsPrinted(v: Sextet)
    ensures |ALPHABET| == 64 && Symbol(v) == ALPHABET[v] as int && PAD == '=' as int
  {
    RowsAsPrinted(if v < 26 then v as int else if v < 52 then v - 26 else if v < 62 then v - 52 else 0);
  }

  predicate IsSymbol(c: Octet) {
    65 <= c <= 90 || 97 <= c <= 122 || 48 <= c <= 57 || c == 43 || c == 47
  }

  /** The value of a symbol; a character that is no symbol counts as 0. */
  function Lookup(c: Octet): Sextet {
    if 65 <= c <= 90 then c - 65
    else if 97 <= c <= 122 then c - 97 + 26
    else if 48 <= c <= 57 then c - 48 + 52
    else if c == 43 then 62
    else if c == 47 then 63
    else 0
  }

  lemma LookupInvertsSymbol(v: Sextet)
    ensures IsSymbol(Symbol(v)) && Lookup(Symbol(v)) == v
  {
  }

  lemma SymbolInvertsLookup(c: Octet)
    requires IsSymbol(c)
    ensures Symbol(Lookup(c)) == c
  {
  }

  // ----- encoding ------------------------------------------------------------------------

  function First(a: Octet): Sextet { a / 4 }

  function Second(a: Octet, b: Octet): Sextet { a % 4 * 16 + b / 16 }

  function Third(b: Octet, c: Octet): Sextet { b % 16 * 4 + c / 64 }

  function Fourth(c: Octet): Sextet { c % 64 }

  /** The 24 bits of three octets, six at a time. */
  function Sextets(a: Octet, b: Octet, c: Octet): (q: seq<Sextet>)
    ensures |q| == 4
  {
    [First(a), Second(a, b), Third(b, c), Fourth(c)]
  }

  function Quad(a: Octet, b: Octet, c: Octet): (q: seq<Octet>)
    ensures |q| == 4
  {
    var v := Sextets(a, b, c);
    [Symbol(v[0]), Symbol(v[1]), Symbol(v[2]), Symbol(v[3])]
  }

  /** Section 4 of RFC 4648: full groups, then one of the two padded endings. */
  function Encode(x: seq<Octet>): seq<Octet> {
    if |x| == 0 then []
    else if |x| == 1 then [Symbol(x[0] / 4), Symbol(x[0] % 4 * 16), PAD, PAD]
    else if |x| == 2 then
      [Symbol(x[0] / 4), Symbol(x[0] % 4 * 16 + x[1] / 16), Symbol(x[1] % 16 * 4), PAD]
    else Quad(x[0], x[1], x[2]) + Encode(x[3..])
  }

  /** The number of padding characters. */
  function Padding(n: nat): nat {
    if n % 3 == 0 then 0 else 3 - n % 3
  }

  lemma {:induction false} EncodeLength(x: seq<Octet>)
    ensures |Encode(x)| == 4 * ((|x| + 2) / 3)
  {
    hide Symbol, Sextets, Quad;
    if |x| >= 3 {
      EncodeLength(x[3..]);
    }
  }

  /** Encoding can be cut at any multiple of three octets. */
  lemma {:induction false} EncodeAppend(a: seq<Octet>, b: seq<Octet>)
    requires |a| % 3 == 0
    ensures Encode(a + b) == Encode(a) + Encode(b)
  {
    hide Symbol, Sextets, Quad;
    if a == [] {
      assert a + b == b;
    } else {
      EncodeAppend(a[3..], b);
      assert (a + b)[3..] == a[3..] + b;
    }
  }

  // ----- decoding ------------------------------------------------------------------------

  /** The 24 bits of four sextets, eight at a time. */
  function Octets(a: Sextet, b: Sextet, c: Sextet, d: Sextet): (o: seq<Octet>)
    ensures |o| == 3
  {
    [a * 4 + b / 16, b % 16 * 16 + c / 4, c % 4 * 64 + d]
  }

  /** All the octets spelled by the characters, padding read as zero bits. */
  function Spell(s: seq<Octet>): (x: seq<Octet>)
    ensures |x| == |s| / 4 * 3
  {
    if |s| < 4 then []
    else
      assert |s| / 4 == 1 + |s[4..]| / 4;
      Octets(Lookup(s[0]), Lookup(s[1]), Lookup(s[2]), Lookup(s[3])) + Spell(s[4..])
  }

  /** Three octets a group, less one for a '=' in each of the last two places. */
  function OutputLength(s: seq<Octet>): (n: nat)
    requires |s| > 0 && |s| % 4 == 0
    ensures |s| / 4 * 3 - 2 <= n <= |s| / 4 * 3
  {
    |s| / 4 * 3 - (if s[|s| - 1] == PAD then 1 else 0) - (if s[|s| - 2] == PAD then 1 else 0)
  }

  function Decode(s: seq<Octet>): (x: seq<Octet>)
    requires |s| > 0 && |s| % 4 == 0
    ensures |x| == OutputLength(s)
  {
    Spell(s)[..OutputLength(s)]
  }

  lemma {:induction false} SpellAppend(a: seq<Octet>, b: seq<Octet>)
    requires |a| % 4 == 0
    ensures Spell(a + b) == Spell(a) + Spell(b)
  {
    if a == [] {
      assert a + b == b;
    } else {
      hide Lookup, Octets;
      var s := a + b;
      assert s[4..] == a[4..] + b;
      var first := Octets(Lookup(a[0]), Lookup(a[1]), Lookup(a[2]), Lookup(a[3]));
      SpellAppend(a[4..], b);
      calc {
        Spell(s);
        first + Spell(s[4..]);
        first + (Spell(a[4..]) + Spell(b));
        first + Spell(a[4..]) + Spell(b);
        Spell(a) + Spell(b);
      }
    }
  }

  // ----- decode(encode(x)) == x ----------------------------------------------------------

  lemma SecondSplits(a: Octet, b: Octet)
    ensures Second(a, b) / 16 == a % 4 && Second(a, b) % 16 == b / 16
  {
    assert b / 16 < 16;
  }

  lemma ThirdSplits(b: Octet, c: Octet)
    ensures Third(b, c) / 4 == b % 16 && Third(b, c) % 4 == c / 64
  {
    assert c / 64 < 4;
  }

  lemma OctetsOfSextets(a: Octet, b: Octet, c: Octet)
    ensures var q := Sextets(a, b, c); Octets(q[0], q[1], q[2], q[3]) == [a, b, c]
  {
    SecondSplits(a, b);
    ThirdSplits(b, c);
    hide Second, Third;
  }

  lemma QuadSpelled(a: Octet, b: Octet, c: Octet)
    ensures var q := Quad(a, b, c);
            Octets(Lookup(q[0]), Lookup(q[1]), Lookup(q[2]), Lookup(q[3])) == [a, b, c]
  {
    var v := Sextets(a, b, c);
    LookupInvertsSymbol(v[0]);
    LookupInvertsSymbol(v[1]);
    LookupInvertsSymbol(v[2]);
    LookupInvertsSymbol(v[3]);
    OctetsOfSextets(a, b, c);
  }

  /** The code of a last group of one or two octets, made of the symbols of that group
      completed with zeros. */
  lemma LastQuad(x: seq<Octet>)
    requires 1 <= |x| <= 2
    ensures var q := Quad(x[0], if |x| == 2 then x[1] else 0, 0);
            Encode(x) == if |x| == 1 then [q[0], q[1], PAD, PAD] else [q[0], q[1], q[2], PAD]
  {
  }

  lemma SpellOne(s: seq<Octet>)
    requires |s| >= 4
    ensures Spell(s) == Octets(Lookup(s[0]), Lookup(s[1]), Lookup(s[2]), Lookup(s[3])) + Spell(s[4..])
  {
  }

  /** Padding is looked up like the zero bits it stands for. */
  lemma LastLookedUp(x: seq<Octet>)
    requires 1 <= |x| <= 2
    ensures var q, e := Quad(x[0], if |x| == 2 then x[1] else 0, 0), Encode(x);
            |e| == 4 && forall i :: 0 <= i < 4 ==> Lookup(e[i]) == Lookup(q[i])
  {
    LastQuad(x);
  }

  lemma LastSpelled(x: seq<Octet>)
    requires 1 <= |x| <= 2
    ensures Spell(Encode(x)) == [x[0], if |x| == 2 then x[1] else 0, 0]
  {
    hide Symbol, Sextets, Quad, Encode, Lookup, Octets;
    LastLookedUp(x);
    QuadSpelled(x[0], if |x| == 2 then x[1] else 0, 0);
    SpellOne(Encode(x));
    assert Spell(Encode(x)[4..]) == [];
  }

  /** The code of `x` spells `x` again, then at most two zeros for the padding. */
  lemma EncodeUnfolds(x: seq<Octet>)
    requires |x| >= 3
    ensures Encode(x) == Quad(x[0], x[1], x[2]) + Encode(x[3..])
  {
  }

  lemma {:induction false} EncodeSpelled(x: seq<Octet>)
    ensures Spell(Encode(x)) == x + [0, 0][..Padding(|x|)]
  {
    hide Symbol, Sextets, Quad, Lookup, Octets;
    if 1 <= |x| <= 2 {
      LastSpelled(x);
    } else if |x| >= 3 {
      hide Encode;
      var q, rest := Quad(x[0], x[1], x[2]), Encode(x[3..]);
      EncodeUnfolds(x);
      EncodeSpelled(x[3..]);
      QuadSpelled(x[0], x[1], x[2]);
      assert (q + rest)[4..] == rest;
      SpellOne(q + rest);
      assert x == [x[0], x[1], x[2]] + x[3..];
    }
  }

  lemma QuadIsSymbols(a: Octet, b: Octet, c: Octet)
    ensures forall i :: 0 <= i < 4 ==> IsSymbol(Quad(a, b, c)[i])
  {
    var v := Sextets(a, b, c);
    LookupInvertsSymbol(v[0]);
    LookupInvertsSymbol(v[1]);
    LookupInvertsSymbol(v[2]);
    LookupInvertsSymbol(v[3]);
  }

  lemma LastIsCanonical(x: seq<Octet>)
    requires 1 <= |x| <= 3
    ensures |Encode(x)| == 4 && IsCanonical(Encode(x)) && OutputLength(Encode(x)) == |x|
  {
    var b, c := if |x| >= 2 then x[1] else 0, if |x| == 3 then x[2] else 0;
    var v := Sextets(x[0], b, c);
    QuadIsSymbols(x[0], b, c);
    if |x| == 3 {
      assert Encode(x) == Quad(x[0], b, c) + Encode(x[3..]);
    } else {
      LastQuad(x);
      LookupInvertsSymbol(v[1]);
      LookupInvertsSymbol(v[2]);
    }
  }

  lemma CanonicalGrows(q: seq<Octet>, s: seq<Octet>)
    requires |q| == 4 && IsCanonical(s) && forall i :: 0 <= i < 4 ==> IsSymbol(q[i])
    ensures IsCanonical(q + s) && OutputLength(q + s) == 3 + OutputLength(s)
  {
    assert forall i :: 4 <= i < |q + s| ==> (q + s)[i] == s[i - 4];
  }

  /** Every code is canonical, and its padding tells the length of what it encodes. */
  lemma {:induction false} EncodeIsCanonical(x: seq<Octet>)
    requires x != []
    ensures IsCanonical(Encode(x)) && OutputLength(Encode(x)) == |x|
  {
    if |x| <= 3 {
      LastIsCanonical(x);
    } else {
      EncodeIsCanonical(x[3..]);
      QuadIsSymbols(x[0], x[1], x[2]);
      CanonicalGrows(Quad(x[0], x[1], x[2]), Encode(x[3..]));
    }
  }

  /** Decoding undoes encoding, for every non-empty input. */
  lemma DecodeEncode(x: seq<Octet>)
    requires x != []
    ensures |Encode(x)| > 0 && |Encode(x)| % 4 == 0
    ensures Decode(Encode(x)) == x
  {
    EncodeIsCanonical(x);
    EncodeSpelled(x);
  }

  lemma EncodeIsInjective(x: seq<Octet>, y: seq<Octet>)
    requires Encode(x) == Encode(y)
    ensures x == y
  {
    EncodeLength(x);
    EncodeLength(y);
    if x != [] && y != [] {
      DecodeEncode(x);
      DecodeEncode(y);
    }
  }

  // ----- encode(decode(s)) == s ----------------------------------------------------------

  /** Sections 3.5 and 4 of RFC 4648: symbols only, save for at most two '=' at the very end,
      in front of which the bits that code nothing are zero. */
  predicate IsCanonical(s: seq<Octet>) {
    var n := |s|;
    && n > 0 && n % 4 == 0
    && (forall i :: 0 <= i < n - 2 ==> IsSymbol(s[i]))
    && (|| (IsSymbol(s[n - 2]) && IsSymbol(s[n - 1]))
        || (IsSymbol(s[n - 2]) && s[n - 1] == PAD && Lookup(s[n - 2]) % 4 == 0)
        || (s[n - 2] == PAD && s[n - 1] == PAD && Lookup(s[n - 3]) % 16 == 0))
  }

  lemma SextetsOfOctets(a: Sextet, b: Sextet, c: Sextet, d: Sextet)
    ensures var o := Octets(a, b, c, d); Sextets(o[0], o[1], o[2]) == [a, b, c, d]
  {
    var o := Octets(a, b, c, d);
    assert o[0] / 4 == a && o[0] % 4 == b / 16;
    assert o[1] / 16 == b % 16 && o[1] % 16 == c / 4;
    assert o[2] / 64 == c % 4 && o[2] % 64 == d;
  }

  lemma OctetsQuaded(a: Sextet, b: Sextet, c: Sextet, d: Sextet)
    ensures var o := Octets(a, b, c, d);
            Quad(o[0], o[1], o[2]) == [Symbol(a), Symbol(b), Symbol(c), Symbol(d)]
  {
    SextetsOfOctets(a, b, c, d);
  }

  lemma DecodeSplits(s: seq<Octet>)
    requires |s| > 4 && |s| % 4 == 0
    ensures Decode(s) == Spell(s[..4]) + Decode(s[4..])
  {
    assert s == s[..4] + s[4..];
    SpellAppend(s[..4], s[4..]);
  }

  /** Zero pad bits are octets of zero. */
  lemma PaddedOctets(a: Sextet, b: Sextet, c: Sextet, d: Sextet)
    ensures c % 4 == 0 && d == 0 ==> Octets(a, b, c, d)[2] == 0
    ensures b % 16 == 0 && c == 0 && d == 0 ==> Octets(a, b, c, d)[1] == 0
  {
  }

  lemma PadIsNoSymbol()
    ensures !IsSymbol(PAD) && Lookup(PAD) == 0
  {
  }

  /** Every character but the padding is the symbol of its value. */
  lemma SymbolsReadBack(s: seq<Octet>)
    requires |s| == 4 && IsCanonical(s)
    ensures forall i :: 0 <= i < 4 ==> s[i] == PAD || Symbol(Lookup(s[i])) == s[i]
    ensures s[0] != PAD && s[1] != PAD
  {
    hide Symbol, Lookup;
    assert IsSymbol(s[0]) && IsSymbol(s[1]);
    forall i | 0 <= i < 4 && s[i] != PAD ensures Symbol(Lookup(s[i])) == s[i] {
      SymbolInvertsLookup(s[i]);
    }
  }

  lemma LastGroupEncoded(s: seq<Octet>)
    requires |s| == 4 && IsCanonical(s)
    ensures Encode(Decode(s)) == s
  {
    hide Symbol, Lookup, Octets, Sextets, Quad, IsSymbol;
    var a, b, c, d := Lookup(s[0]), Lookup(s[1]), Lookup(s[2]), Lookup(s[3]);
    PadIsNoSymbol();
    SymbolsReadBack(s);
    OctetsQuaded(a, b, c, d);
    PaddedOctets(a, b, c, d);
    SpellOne(s);
    var o, x := Octets(a, b, c, d), Decode(s);
    assert x == o[..OutputLength(s)];
    if |x| == 3 {
      EncodeUnfolds(x);
    } else {
      LastQuad(x);
    }
  }

  lemma {:induction false} CanonicalEncoded(s: seq<Octet>)
    requires IsCanonical(s)
    ensures Encode(Decode(s)) == s
  {
    hide Encode, Spell;
    if |s| == 4 {
      LastGroupEncoded(s);
    } else {
      var first, rest := s[..4], s[4..];
      assert forall i :: 0 <= i < |rest| ==> rest[i] == s[i + 4];
      assert IsCanonical(rest);
      CanonicalEncoded(rest);
      DecodeSplits(s);
      assert IsCanonical(first) by {
        assert IsSymbol(s[0]) && IsSymbol(s[1]) && IsSymbol(s[2]) && IsSymbol(s[3]);
      }
      LastGroupEncoded(first);
      assert Decode(first) == Spell(first);
      EncodeAppend(Spell(first), Decode(rest));
    }
  }

  /** Encoding undoes decoding exactly on the canonical codes; every other input of an
      admissible length is decoded too, into octets that have a different code. */
  lemma EncodeDecodeExactlyWhen(s: seq<Octet>)
    requires |s| > 0 && |s| % 4 == 0
    ensures Encode(Decode(s)) == s <==> IsCanonical(s)
  {
    if IsCanonical(s) {
      CanonicalEncoded(s);
    }
    if Encode(Decode(s)) == s {
      EncodeIsCanonical(Decode(s));
    }
  }

  /** "QR==" has a pad bit set: it decodes to "A", whose code is "QQ==". */
  lemma NonCanonicalChanges()
    ensures Decode([81, 82, 61, 61]) == [65] && Encode([65]) == [81, 81, 61, 61]
    ensures !IsCanonical([81, 82, 61, 61])
  {
    SpellOne([81, 82, 61, 61]);
  }

  // ----- the code in the letters of the standard -----------------------------------------

  /** Four symbols carry the same 24 bits as the three octets they encode. */
  lemma QuadCarriesOctets(a: Octet, b: Octet, c: Octet)
    ensures var q := Quad(a, b, c);
            262144 * Lookup(q[0]) + 4096 * Lookup(q[1]) + 64 * Lookup(q[2]) + Lookup(q[3])
            == 65536 * a + 256 * b + c
  {
    LookupInvertsSymbol(First(a));
    LookupInvertsSymbol(Second(a, b));
    LookupInvertsSymbol(Third(b, c));
    LookupInvertsSymbol(Fourth(c));
    hide Symbol, Lookup;
    assert a == 4 * (a / 4) + a % 4 && b == 16 * (b / 16) + b % 16 && c == 64 * (c / 64) + c % 64;
  }

  /** And the three octets carry the 24 bits of the four symbols. */
  lemma OctetsCarrySextets(a: Sextet, b: Sextet, c: Sextet, d: Sextet)
    ensures var o := Octets(a, b, c, d);
            65536 * (o[0] as int) + 256 * (o[1] as int) + o[2] == 262144 * a + 4096 * b + 64 * c + d
  {
    assert b == 16 * (b / 16) + b % 16 && c == 4 * (c / 4) + c % 4;
  }

  function Ascii(text: string): seq<Octet>
    requires forall i :: 0 <= i < |text| ==> text[i] as int < 256
  {
    seq(|text|, i requires 0 <= i < |text| => text[i] as int)
  }

  lemma AsciiAppend(a: string, b: string)
    requires forall i :: 0 <= i < |a| ==> a[i] as int < 256
    requires forall i :: 0 <= i < |b| ==> b[i] as int < 256
    ensures forall i :: 0 <= i < |a + b| ==> (a + b)[i] as int < 256
    ensures Ascii(a + b) == Ascii(a) + Ascii(b)
  {
  }

  lemma VectorsByNumber()
    ensures Encode([102]) == [90, 103, 61, 61] && Encode([102, 111]) == [90, 109, 56, 61]
    ensures Encode([102, 111, 111]) == [90, 109, 57, 118] && Encode([98, 97, 114]) == [89, 109, 70, 121]
  {
  }

  lemma VectorsInAscii()
    ensures Ascii("f") == [102] && Ascii("fo") == [102, 111] && Ascii("foo") == [102, 111, 111]
    ensures Ascii("bar") == [98, 97, 114]
    ensures Ascii("Zg==") == [90, 103, 61, 61] && Ascii("Zm8=") == [90, 109, 56, 61]
    ensures Ascii("Zm9v") == [90, 109, 57, 118] && Ascii("YmFy") == [89, 109, 70, 121]
  {
  }

  /** Test vectors of section 10 of RFC 4648. */
  lemma Rfc4648Vectors()
    ensures Encode(Ascii("f")) == Ascii("Zg==")
    ensures Encode(Ascii("fo")) == Ascii("Zm8=")
    ensures Encode(Ascii("foo")) == Ascii("Zm9v")
    ensures Encode(Ascii("foobar")) == Ascii("Zm9vYmFy")
  {
    VectorsByNumber();
    VectorsInAscii();
    hide Encode, Ascii;
    assert "foobar" == "foo" + "bar" && "Zm9vYmFy" == "Zm9v" + "YmFy";
    AsciiAppend("foo", "bar");
    AsciiAppend("Zm9v", "YmFy");
    EncodeAppend(Ascii("foo"), Ascii("bar"));
  }

  /** The decoder drops one octet for a '=' in the last place and one for a '=' in the place
      before, each on its own. */
  lemma DecodedLengthByCases(s: seq<Octet>)
    requires |s| > 0 && |s| % 4 == 0
    ensures var n, full := |Decode(s)|, |s| / 4 * 3;
            var before, last := s[|s| - 2] == '=' as int, s[|s| - 1] == '=' as int;
            && (before && last ==> n == full - 2)
            && (before && !last ==> n == full - 1)
            && (!before && last ==> n == full - 1)
            && (!before && !last ==> n == full)
  {
  }

  /** Every character outside the alphabet, '=' anywhere among them, replaced by 'A'. */
  function Cleaned(s: seq<Octet>): (r: seq<Octet>)
    ensures |r| == |s|
  {
    seq(|s|, i requires 0 <= i < |s| => if IsSymbol(s[i]) then s[i] else 'A' as int)
  }

  lemma ForeignLooksLikeA(c: Octet)
    ensures !IsSymbol(c) ==> Lookup(c) == Lookup('A' as int)
  {
  }

  /** The decoder reads every character outside the alphabet as 'A', except that the last two
      places also shorten the output. */
  lemma {:induction false} ForeignReadAsA(s: seq<Octet>)
    ensures Spell(s) == Spell(Cleaned(s))
    decreases |s|
  {
    if |s| >= 4 {
      ForeignReadAsA(s[4..]);
      assert Cleaned(s)[4..] == Cleaned(s[4..]);
      ForeignLooksLikeA(s[0]);
      ForeignLooksLikeA(s[1]);
      ForeignLooksLikeA(s[2]);
      ForeignLooksLikeA(s[3]);
      hide Lookup, Octets, IsSymbol;
    }
  }
}
