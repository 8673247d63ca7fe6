/** The codec over buffers: a table lookup per sextet, shifts and masks on a 24-bit word, and a
    padding loop that overwrites the tail. Shifts and masks of non-negative words are written
    as multiplication, division and remainder by powers of two; no word exceeds 24 bits, so
    32-bit arithmetic does not wrap. */
module SkyBase64 {
  import opened Base64Model
  import opened Prelude

  /** The longest input whose code can be indexed by an `int`. */
  const MAX_INPUT: nat := 1610612733

  const INT_MAX: nat := 2147483647

  function Upper(): (t: seq<Octet>)
    ensures |t| == 26
  {
    [65, 66, 67, 68, 69, 70, 71, 72, 73, 74, 75, 76, 77, 78, 79, 80, 81, 82, 83, 84, 85, 86, 87, 88, 89, 90]
  }

  function Lower(): (t: seq<Octet>)
    ensures |t| == 26
  {
    [97, 98, 99, 100, 101, 102, 103, 104, 105, 106, 107, 108, 109, 110, 111, 112, 113, 114, 115, 116, 117, 118,
     119, 120, 121, 122]
  }

  function Digits(): (t: seq<Octet>)
    ensures |t| == 10
  {
    [48, 49, 50, 51, 52, 53, 54, 55, 56, 57]
  }

  /** `base64_encoding_table` by character code: A to Z, a to z, 0 to 9, '+', '/'. */
  function EncodingTable(): (t: seq<Octet>)
    ensures |t| == 64
  {
    Upper() + Lower() + Digits() + [43, 47]
  }

  lemma RowsAreRanges()
    ensures forall i :: 0 <= i < 26 ==> Upper()[i] == 65 + i
    ensures forall i :: 0 <= i < 26 ==> Lower()[i] == 97 + i
    ensures forall i :: 0 <= i < 10 ==> Digits()[i] == 48 + i
  {
  }

  /** The table is the alphabet of RFC 4648. */
  lemma TableIsAlphabet(v: Sextet)
    ensures EncodingTable()[v] == Symbol(v)
  {
    hide Upper, Lower, Digits;
    RowsAreRanges();
  }

  /** As table 1 of RFC 4648 prints it. */
  lemma TableAsPrinted(v: Sextet)
    ensures |ALPHABET| == 64 && EncodingTable()[v] == ALPHABET[v] as int
  {
    hide Symbol, EncodingTable;
    TableIsAlphabet(v);
    SymbolsAsPrinted(v);
  }

  function TableAt(v: Sextet): (c: Octet)
    ensures c == Symbol(v)
  {
    TableIsAlphabet(v);
    EncodingTable()[v]
  }

  /** What the main loop writes: a full group for every three octets begun, the missing ones
      read as zero. */
  function Unpadded(x: seq<Octet>): (s: seq<Octet>)
    ensures if x == [] then s == [] else |s| >= 4
  {
    if |x| == 0 then []
    else if |x| == 1 then Quad(x[0], 0, 0)
    else if |x| == 2 then Quad(x[0], x[1], 0)
    else Quad(x[0], x[1], x[2]) + Unpadded(x[3..])
  }

  lemma {:induction false} UnpaddedAppend(a: seq<Octet>, b: seq<Octet>)
    requires |a| % 3 == 0
    ensures Unpadded(a + b) == Unpadded(a) + Unpadded(b)
  {
    hide Quad;
    if a == [] {
      assert a + b == b;
    } else {
      UnpaddedAppend(a[3..], b);
      assert (a + b)[3..] == a[3..] + b;
    }
  }

  /** `s` with its last `k` characters overwritten by '='. */
  function Padded(s: seq<Octet>, k: nat): seq<Octet>
    requires k <= |s|
  {
    s[..|s| - k] + seq(k, _ => PAD)
  }

  lemma PaddedByOne(q: seq<Octet>)
    requires |q| == 4
    ensures Padded(q, 1) == [q[0], q[1], q[2], PAD]
  {
  }

  lemma PaddedByTwo(q: seq<Octet>)
    requires |q| == 4
    ensures Padded(q, 2) == [q[0], q[1], PAD, PAD]
  {
  }

  lemma LastUnpadded(x: seq<Octet>)
    requires 1 <= |x| <= 2
    ensures Unpadded(x) == Quad(x[0], if |x| == 2 then x[1] else 0, 0)
  {
  }

  lemma LastPadded(x: seq<Octet>)
    requires 1 <= |x| <= 2
    ensures Encode(x) == Padded(Unpadded(x), Padding(|x|))
  {
    hide Quad, Padded, Encode, Unpadded;
    var q := Quad(x[0], if |x| == 2 then x[1] else 0, 0);
    LastQuad(x);
    LastUnpadded(x);
    PaddedByOne(q);
    PaddedByTwo(q);
  }

  lemma PaddedAppend(a: seq<Octet>, b: seq<Octet>, k: nat)
    requires k <= |b|
    ensures Padded(a + b, k) == a + Padded(b, k)
  {
    assert (a + b)[..|a + b| - k] == a + b[..|b| - k];
  }

  /** Overwriting the tail of what the loop wrote gives the code that RFC 4648 prescribes. */
  lemma {:induction false} PaddingCompletesEncode(x: seq<Octet>)
    ensures Encode(x) == Padded(Unpadded(x), Padding(|x|))
  {
    hide Quad, Padded;
    if x == [] {
      NothingPadded();
    } else if |x| <= 2 {
      LastPadded(x);
    } else {
      PaddingCompletesEncode(x[3..]);
      PaddedAppend(Quad(x[0], x[1], x[2]), Unpadded(x[3..]), Padding(|x|));
    }
  }

  lemma NothingPadded()
    ensures Padded([], 0) == []
  {
  }

  lemma MultipleIsFar(d: int, e: int)
    requires d >= 0
    ensures e >= 1 ==> d * e >= d
    ensures e <= -1 ==> d * e <= -d
  {
  }

  lemma DivMod(x: nat, d: nat, q: nat, r: nat)
    requires d > 0 && x == d * q + r && r < d
    ensures x / d == q && x % d == r
  {
    assert d * (q - x / d) == x % d - r;
    MultipleIsFar(d, q - x / d);
  }

  /** The word shifted right by 18, 12, 6 and 0 bits, then masked with 0x3F. */
  function Mask18(triple: nat): Sextet { triple / 0x4_0000 % 64 }

  function Mask12(triple: nat): Sextet { triple / 0x1000 % 64 }

  function Mask6(triple: nat): Sextet { triple / 0x40 % 64 }

  function Mask0(triple: nat): Sextet { triple % 64 }

  /** `(a << 16) + (b << 8) + c`. */
  function Triple(a: Octet, b: Octet, c: Octet): nat {
    a * 0x1_0000 + b * 0x100 + c
  }

  lemma MasksAreSextets(a: Octet, b: Octet, c: Octet)
    ensures Mask18(Triple(a, b, c)) == First(a)
    ensures Mask12(Triple(a, b, c)) == Second(a, b)
    ensures Mask6(Triple(a, b, c)) == Third(b, c)
    ensures Mask0(Triple(a, b, c)) == Fourth(c)
  {
    DivMod(Triple(a, b, c), 0x4_0000, a / 4, a % 4 * 0x1_0000 + b * 0x100 + c);
    DivMod(Triple(a, b, c), 0x1000, a * 16 + b / 16, b % 16 * 0x100 + c);
    DivMod(a * 16 + b / 16, 64, a / 4, a % 4 * 16 + b / 16);
    DivMod(Triple(a, b, c), 0x40, a * 1024 + b * 4 + c / 64, c % 64);
    DivMod(a * 1024 + b * 4 + c / 64, 64, a * 16 + b / 16, b % 16 * 4 + c / 64);
    DivMod(Triple(a, b, c), 64, a * 1024 + b * 4 + c / 64, c % 64);
  }

  lemma GroupIsQuad(a: Octet, b: Octet, c: Octet)
    ensures Group(Triple(a, b, c)) == Quad(a, b, c)
  {
    hide First, Second, Third, Fourth, Mask18, Mask12, Mask6, Mask0, Triple, Symbol;
    MasksAreSextets(a, b, c);
  }

  /** The four characters for a 24-bit word. */
  function Group(triple: nat): (s: seq<Octet>)
    ensures |s| == 4
  {
    [TableAt(Mask18(triple)), TableAt(Mask12(triple)), TableAt(Mask6(triple)), TableAt(Mask0(triple))]
  }

  /** The four assignments of the encoding loop. */
  method WriteGroup(encoded: array<Octet>, j: nat, triple: nat)
    requires j + 4 <= encoded.Length
    modifies encoded
    ensures encoded[..] == old(encoded[..j]) + Group(triple) + old(encoded[j + 4..])
  {
    encoded[j] := TableAt(Mask18(triple));
    encoded[j + 1] := TableAt(Mask12(triple));
    encoded[j + 2] := TableAt(Mask6(triple));
    encoded[j + 3] := TableAt(Mask0(triple));
  }

  /** One turn of the encoding loop, on the input. */
  lemma UnpaddedStep(x: seq<Octet>, i: nat)
    requires i < |x| && i % 3 == 0
    ensures var k := |x| - i;
            Unpadded(x[..if k < 3 then |x| else i + 3]) ==
            Unpadded(x[..i]) + Quad(x[i], if k > 1 then x[i + 1] else 0, if k > 2 then x[i + 2] else 0)
  {
    hide Quad;
    var next := if |x| - i < 3 then |x| else i + 3;
    assert x[..next] == x[..i] + x[i..next];
    UnpaddedAppend(x[..i], x[i..next]);
  }

  /** `base64_mod_table`. */
  function ModTable(r: nat): nat
    requires r < 3
  {
    [0, 2, 1][r]
  }

  /** The padding loop. */
  method PadTail(encoded: array<Octet>, padding: nat)
    requires padding <= encoded.Length
    modifies encoded
    ensures encoded[..] == Padded(old(encoded[..]), padding)
  {
    ghost var n := encoded.Length;
    var i := 0;
    while i < padding
      invariant i <= padding
      invariant forall j :: 0 <= j < n ==> encoded[j] == if j < n - i then old(encoded[j]) else PAD
    {
      encoded[encoded.Length - 1 - i] := PAD;
      i := i + 1;
    }
  }

  /** The three reads of the encoding loop: octets past the end are 0. */
  method ReadTriple(data: array<Octet>, i: nat) returns (triple: nat, next: nat)
    requires i < data.Length
    ensures next == if data.Length - i < 3 then data.Length else i + 3
    ensures var k := data.Length - i;
            Group(triple) == Quad(data[i], if k > 1 then data[i + 1] else 0, if k > 2 then data[i + 2] else 0)
  {
    hide Quad, Group, Triple;
    next := i;
    var a: Octet := data[next];
    next := next + 1;
    var b: Octet := 0;
    if next < data.Length { b := data[next]; next := next + 1; }
    var c: Octet := 0;
    if next < data.Length { c := data[next]; next := next + 1; }
    triple := Triple(a, b, c);
    GroupIsQuad(a, b, c);
  }

  /** The encoding loop. */
  method EncodeGroups(data: array<Octet>, encoded: array<Octet>)
    requires encoded != data && encoded.Length == 4 * ((data.Length + 2) / 3)
    modifies encoded
    ensures encoded[..] == Unpadded(data[..])
  {
    hide Quad, Group, Unpadded;
    ghost var x, g := data[..], 0;
    var i, j := 0, 0;
    while i < data.Length
      invariant i == Min(3 * g, data.Length) && (g == 0 || 3 * (g - 1) < data.Length)
      invariant j == 4 * g <= encoded.Length
      invariant data[..] == x && encoded[..j] == Unpadded(x[..i])
    {
      UnpaddedStep(x, i);
      var triple;
      triple, i := ReadTriple(data, i);
      WriteGroup(encoded, j, triple);
      j := j + 4;
      g := g + 1;
    }
    assert x[..i] == x;
  }

  /** `sky_base64_encode`; `memory` is what the allocator answers. */
  method EncodeBuffer(data: array<Octet>, memory: bool) returns (encoded: array?<Octet>, outputLength: nat)
    requires data.Length <= MAX_INPUT
    ensures outputLength == 4 * ((data.Length + 2) / 3)
    ensures encoded != null <==> memory
    ensures encoded != null ==> fresh(encoded) && encoded.Length == outputLength && encoded[..] == Encode(data[..])
  {
    outputLength := 4 * ((data.Length + 2) / 3);
    if !memory {
      return null, outputLength;
    }
    encoded := new Octet[outputLength](_ => 0);
    EncodeGroups(data, encoded);
    PadTail(encoded, ModTable(data.Length % 3));
    PaddingCompletesEncode(data[..]);
  }

  // ----- decoding ------------------------------------------------------------------------

  /** What `sky_base64_init` leaves in the decoding table. */
  ghost predicate Ready(table: array<Octet>)
    reads table
  {
    table.Length == 256 && forall c: Octet :: table[c] == Lookup(c)
  }

  /** The table is the inverse of the alphabet. No symbol's slot is written twice, because no
      character occurs twice in the encoding table; every other slot stays 0. */
  method InitTable(table: array<Octet>)
    requires table.Length == 256
    modifies table
    ensures Ready(table)
    ensures forall v: Sextet :: table[EncodingTable()[v]] == v
  {
    hide EncodingTable;
    forall i | 0 <= i < 256 {
      table[i] := 0;
    }
    for i := 0 to 64
      invariant forall c: Octet :: table[c] == if IsSymbol(c) && Lookup(c) < i then Lookup(c) else 0
    {
      TableIsAlphabet(i);
      LookupInvertsSymbol(i);
      forall c: Octet | IsSymbol(c) ensures Symbol(Lookup(c)) == c {
        SymbolInvertsLookup(c);
      }
      table[EncodingTable()[i]] := i;
    }
    forall v: Sextet ensures table[EncodingTable()[v]] == v {
      TableIsAlphabet(v);
      LookupInvertsSymbol(v);
    }
  }

  /** `data[ i ] == '=' ? 0 & i++ : base64_decoding_table[ (uint8_t) data[ i++ ] ]`. */
  method NextSextet(table: array<Octet>, data: array<Octet>, i: nat) returns (v: Sextet, next: nat)
    requires Ready(table) && i < data.Length
    ensures v == Lookup(data[i]) && next == i + 1
  {
    if data[i] == PAD {
      return 0, i + 1;
    }
    v := table[data[i]];
    next := i + 1;
  }

  /** `(a << 18) + (b << 12) + (c << 6) + d`. */
  function Word(a: Sextet, b: Sextet, c: Sextet, d: Sextet): nat {
    a * 0x4_0000 + b * 0x1000 + c * 0x40 + d
  }

  /** The word shifted right by 16, 8 and 0 bits, then masked with 0xFF. */
  function Bytes(word: nat): (o: seq<Octet>)
    ensures |o| == 3
  {
    [word / 0x1_0000 % 256, word / 0x100 % 256, word % 256]
  }

  lemma BytesAreOctets(a: Sextet, b: Sextet, c: Sextet, d: Sextet)
    ensures Bytes(Word(a, b, c, d)) == Octets(a, b, c, d)
  {
    var w := Word(a, b, c, d);
    DivMod(w, 0x1_0000, a * 4 + b / 16, b % 16 * 0x1000 + c * 0x40 + d);
    DivMod(w, 0x100, a * 1024 + b * 16 + c / 4, c % 4 * 0x40 + d);
    DivMod(a * 1024 + b * 16 + c / 4, 256, a * 4 + b / 16, b % 16 * 16 + c / 4);
  }

  /** The three guarded assignments of the decoding loop: no index past the end is written. */
  method WriteOctets(decoded: array<Octet>, j: nat, word: nat) returns (next: nat)
    requires j <= decoded.Length
    modifies decoded
    ensures next == if j + 3 <= decoded.Length then j + 3 else decoded.Length
    ensures decoded[..next] == old(decoded[..j]) + Bytes(word)[..next - j]
  {
    next := j;
    if next < decoded.Length {
      decoded[next] := word / 0x1_0000 % 256;
      next := next + 1;
    }
    if next < decoded.Length {
      decoded[next] := word / 0x100 % 256;
      next := next + 1;
    }
    if next < decoded.Length {
      decoded[next] := word % 256;
      next := next + 1;
    }
  }

  lemma SpellStep(s: seq<Octet>, i: nat)
    requires i % 4 == 0 && i + 4 <= |s|
    ensures Spell(s[..i + 4]) ==
            Spell(s[..i]) + Octets(Lookup(s[i]), Lookup(s[i + 1]), Lookup(s[i + 2]), Lookup(s[i + 3]))
  {
    hide Octets, Lookup;
    assert s[..i + 4] == s[..i] + s[i..i + 4];
    SpellAppend(s[..i], s[i..i + 4]);
    SpellOne(s[i..i + 4]);
  }

  /** The four reads of the decoding loop. */
  method ReadWord(table: array<Octet>, data: array<Octet>, i: nat) returns (word: nat, next: nat)
    requires Ready(table) && i + 4 <= data.Length
    ensures next == i + 4
    ensures Bytes(word) == Octets(Lookup(data[i]), Lookup(data[i + 1]), Lookup(data[i + 2]), Lookup(data[i + 3]))
  {
    hide Octets, Lookup, Bytes, Word;
    var a, b, c, d;
    a, next := NextSextet(table, data, i);
    b, next := NextSextet(table, data, next);
    c, next := NextSextet(table, data, next);
    d, next := NextSextet(table, data, next);
    word := Word(a, b, c, d);
    BytesAreOctets(a, b, c, d);
  }

  lemma TakeAppend(a: seq<Octet>, b: seq<Octet>, n: nat)
    requires n <= |b|
    ensures (a + b)[..|a| + n] == a + b[..n]
  {
  }

  /** The decoding loop: all of `data` is read, all of `decoded` is written, in order. */
  method DecodeGroups(table: array<Octet>, data: array<Octet>, decoded: array<Octet>)
    requires Ready(table) && decoded != data && decoded != table
    requires data.Length > 0 && data.Length % 4 == 0 && decoded.Length == OutputLength(data[..])
    modifies decoded
    ensures decoded[..] == Decode(data[..])
  {
    hide Octets, Lookup, Bytes, OutputLength, Spell;
    ghost var s, k := data[..], 0;
    var i, j := 0, 0;
    while i < data.Length
      invariant i == 4 * k <= data.Length && data[..] == s && Ready(table)
      invariant j == if i < data.Length then 3 * k else decoded.Length
      invariant decoded[..j] == Spell(s[..i])[..j]
    {
      SpellStep(s, i);
      var word;
      word, i := ReadWord(table, data, i);
      ghost var before := j;
      j := WriteOctets(decoded, j, word);
      TakeAppend(Spell(s[..4 * k]), Bytes(word), j - before);
      k := k + 1;
    }
    assert s[..i] == s;
  }

  /** `sky_base64_decode`: NULL for a length that is no multiple of 4 or for want of memory;
      otherwise every input is decoded, whatever its characters. */
  method DecodeBuffer(table: array<Octet>, data: array<Octet>, memory: bool)
      returns (decoded: array?<Octet>, outputLength: nat)
    requires Ready(table) && data.Length > 0
    requires data.Length % 4 == 0 ==> data.Length <= INT_MAX
    ensures decoded != null <==> data.Length % 4 == 0 && memory
    ensures decoded != null ==>
      && fresh(decoded) && decoded.Length == outputLength && outputLength == OutputLength(data[..])
      && decoded[..] == Decode(data[..])
  {
    outputLength := 0;
    if data.Length % 4 != 0 {
      return null, outputLength;
    }
    outputLength := data.Length / 4 * 3;
    if data[data.Length - 1] == PAD {
      outputLength := outputLength - 1;
    }
    if data[data.Length - 2] == PAD {
      outputLength := outputLength - 1;
    }
    if !memory {
      return null, outputLength;
    }
    decoded := new Octet[outputLength](_ => 0);
    DecodeGroups(table, data, decoded);
  }

  /** Encoding a non-empty buffer and decoding the result gives the buffer back. */
  method RoundTrip(table: array<Octet>, data: array<Octet>) returns (copy: array<Octet>)
    requires table.Length == 256 && table != data && 0 < data.Length <= MAX_INPUT
    modifies table
    ensures fresh(copy) && copy[..] == data[..] && data[..] == old(data[..])
  {
    InitTable(table);
    var encoded, _ := EncodeBuffer(data, true);
    DecodeEncode(data[..]);
    var decoded, _ := DecodeBuffer(table, encoded, true);
    copy := decoded;
  }
}
