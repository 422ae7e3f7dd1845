/** tl/base64.h against section 4 of RFC 4648. */
module Base64 {
  import opened Arith
  import opened Bytes

  type Sextet = n: int | 0 <= n < 64

  /** `encoding_table`: A-Z, a-z, 0-9, plus, slash. */
  function Char(n: Sextet): char {
    if n < 26 then (65 + n) as char
    else if n < 52 then (97 + (n - 26)) as char
    else if n < 62 then (48 + (n - 52)) as char
    else if n == 62 then '+' else '/'
  }

  predicate InAlphabet(c: char) {
    'A' <= c <= 'Z' || 'a' <= c <= 'z' || '0' <= c <= '9' || c == '+' || c == '/'
  }

  function Digit(c: char): Sextet {
    if 'A' <= c <= 'Z' then c as int - 65
    else if 'a' <= c <= 'z' then c as int - 97 + 26
    else if '0' <= c <= '9' then c as int - 48 + 52
    else if c == '+' then 62
    else if c == '/' then 63 else 0
  }

  lemma CharDigit(n: Sextet)
    ensures InAlphabet(Char(n)) && Digit(Char(n)) == n && Char(n) != '='
  {
  }

  lemma DigitChar(c: char)
    requires InAlphabet(c)
    ensures Char(Digit(c)) == c && c != '='
  {
  }

  // ---------- the standard ----------

  function First(a: Byte): Sextet { a / 4 }

  function Second(a: Byte, b: Byte): Sextet { a % 4 * 16 + b / 16 }

  function Third(b: Byte, c: Byte): Sextet { b % 16 * 4 + c / 64 }

  function Fourth(c: Byte): Sextet { c % 64 }

  /** Groups of three bytes as four characters; a short last group is padded. */
  function Encode(x: seq<Byte>): seq<char> {
    if x == [] then []
    else if |x| == 1 then [Char(First(x[0])), Char(Second(x[0], 0)), '=', '=']
    else if |x| == 2 then [Char(First(x[0])), Char(Second(x[0], x[1])), Char(Third(x[1], 0)), '=']
    else
      [Char(First(x[0])), Char(Second(x[0], x[1])), Char(Third(x[1], x[2])), Char(Fourth(x[2]))] + Encode(x[3..])
  }

  /** What an encoder produces: whole groups of four, padding only at the end, no stray bits before it. */
  predicate Canonical(s: seq<char>) {
    if |s| < 4 then s == []
    else if |s| > 4 || s[3] != '=' then
      InAlphabet(s[0]) && InAlphabet(s[1]) && InAlphabet(s[2]) && InAlphabet(s[3]) && Canonical(s[4..])
    else if s[2] != '=' then
      InAlphabet(s[0]) && InAlphabet(s[1]) && InAlphabet(s[2]) && Digit(s[2]) % 4 == 0
    else InAlphabet(s[0]) && InAlphabet(s[1]) && Digit(s[1]) % 16 == 0
  }

  // ---------- the decoder ----------

  /** A padding sign counts as zero. */
  function Bits(c: char): Sextet {
    if c == '=' then 0 else Digit(c)
  }

  /** The three bytes of a group, padding included. */
  function Group(a: Sextet, b: Sextet, c: Sextet, d: Sextet): (r: seq<Byte>)
    ensures |r| == 3
  {
    [a * 4 + b / 16, b % 16 * 16 + c / 4, c % 4 * 64 + d]
  }

  function Groups(s: seq<char>): (r: seq<Byte>)
    requires |s| % 4 == 0
    ensures |r| == |s| / 4 * 3
  {
    if s == [] then [] else Group(Bits(s[0]), Bits(s[1]), Bits(s[2]), Bits(s[3])) + Groups(s[4..])
  }

  /** The length of the result: one byte less for each of the last two characters that is padding. */
  function DecodedLength(s: seq<char>): (n: nat)
    requires |s| % 4 == 0 && |s| > 0
    ensures n <= |s| / 4 * 3
  {
    |s| / 4 * 3 - (if s[|s| - 1] == '=' then 1 else 0) - (if s[|s| - 2] == '=' then 1 else 0)
  }

  function Decode(s: seq<char>): seq<Byte>
    requires |s| % 4 == 0 && |s| > 0
  {
    Groups(s)[..DecodedLength(s)]
  }

  // ---------- the round trips ----------

  lemma {:induction false} EncodedLength(x: seq<Byte>)
    ensures |Encode(x)| == 4 * ((|x| + 2) / 3)
    ensures x != [] ==> |Encode(x)| >= 4
  {
    hide Char, First, Second, Third, Fourth;
    if |x| >= 3 {
      EncodedLength(x[3..]);
    }
  }

  lemma GroupOfThree(a: Byte, b: Byte, c: Byte)
    ensures Group(First(a), Second(a, b), Third(b, c), Fourth(c)) == [a, b, c]
  {
    ModUnique(Second(a, b), a % 4, 16, b / 16);
    ModUnique(Third(b, c), b % 16, 4, c / 64);
  }

  lemma SextetsOfGroup(a: Sextet, b: Sextet, c: Sextet, d: Sextet)
    ensures var g := Group(a, b, c, d);
            First(g[0]) == a && Second(g[0], g[1]) == b && Third(g[1], g[2]) == c && Fourth(g[2]) == d
  {
    var g := Group(a, b, c, d);
    ModUnique(g[0], a, 4, b / 16);
    ModUnique(g[1], b % 16, 16, c / 4);
    ModUnique(g[2], c % 4, 64, d);
  }

  lemma DecodeStep(q: seq<char>, s: seq<char>)
    requires |q| == 4 && |s| % 4 == 0 && |s| > 0
    ensures Decode(q + s) == Group(Bits(q[0]), Bits(q[1]), Bits(q[2]), Bits(q[3])) + Decode(s)
  {
    var w := q + s;
    hide Group;
    assert w[4..] == s && w[|w| - 1] == s[|s| - 1] && w[|w| - 2] == s[|s| - 2];
  }

  /** Four characters that are not padding. */
  function Four(a: Sextet, b: Sextet, c: Sextet, d: Sextet): (q: seq<char>)
    ensures |q| == 4
  {
    [Char(a), Char(b), Char(c), Char(d)]
  }

  lemma BitsOfFour(a: Sextet, b: Sextet, c: Sextet, d: Sextet)
    ensures var q := Four(a, b, c, d);
            Bits(q[0]) == a && Bits(q[1]) == b && Bits(q[2]) == c && Bits(q[3]) == d && q[2] != '=' && q[3] != '='
  {
    CharDigit(a);
    CharDigit(b);
    CharDigit(c);
    CharDigit(d);
    hide Char, Digit;
  }

  lemma LastGroup(q: seq<char>)
    requires |q| == 4
    ensures Groups(q) == Group(Bits(q[0]), Bits(q[1]), Bits(q[2]), Bits(q[3]))
  {
    hide Group;
    assert q[4..] == [];
    assert Groups(q[4..]) == [];
  }

  lemma EncodeLong(x: seq<Byte>)
    requires |x| >= 3
    ensures Encode(x) == Four(First(x[0]), Second(x[0], x[1]), Third(x[1], x[2]), Fourth(x[2])) + Encode(x[3..])
  {
    hide Char, First, Second, Third, Fourth;
  }

  /** A single group: how many bytes remain depends on its padding. */
  lemma DecodeGroup(q: seq<char>)
    requires |q| == 4
    ensures var n := 3 - (if q[3] == '=' then 1 else 0) - (if q[2] == '=' then 1 else 0);
            Decode(q) == Group(Bits(q[0]), Bits(q[1]), Bits(q[2]), Bits(q[3]))[..n]
  {
    LastGroup(q);
    hide Group, Groups, Bits;
  }

  lemma EncodeShort(x: seq<Byte>)
    requires 1 <= |x| <= 2
    ensures var b := if |x| == 2 then x[1] else 0;
            var pads := if |x| == 1 then ['=', '='] else ['='];
            Encode(x) == Four(First(x[0]), Second(x[0], b), Third(b, 0), Fourth(0))[..|x| + 1] + pads
  {
    hide Char, First, Second, Third, Fourth;
  }

  lemma PaddedBits(q: seq<char>, e: seq<char>, n: nat)
    requires |q| == 4 && 1 <= n <= 2 && e == q[..n + 1] + (if n == 1 then ['=', '='] else ['='])
    requires q[2] != '=' && Bits(q[3]) == 0 && (n == 1 ==> Bits(q[2]) == 0)
    ensures |e| == 4 && (e[2] == '=' <==> n == 1) && e[3] == '='
    ensures Bits(e[0]) == Bits(q[0]) && Bits(e[1]) == Bits(q[1]) && Bits(e[2]) == Bits(q[2]) && Bits(e[3]) == Bits(q[3])
  {
    assert Bits('=') == 0;
    hide Bits;
  }

  lemma NoBits()
    ensures Third(0, 0) == 0 && Fourth(0) == 0
  {
  }

  lemma DecodeShort(x: seq<Byte>)
    requires 1 <= |x| <= 2
    ensures |Encode(x)| == 4 && Decode(Encode(x)) == x
  {
    hide *;
    var b := if |x| == 2 then x[1] else 0;
    var q := Four(First(x[0]), Second(x[0], b), Third(b, 0), Fourth(0));
    NoBits();
    BitsOfFour(First(x[0]), Second(x[0], b), Third(b, 0), Fourth(0));
    EncodeShort(x);
    PaddedBits(q, Encode(x), |x|);
    GroupOfThree(x[0], b, 0);
    DecodeGroup(Encode(x));
    assert [x[0], b, 0][..|x|] == x;
  }

  /** Decoding undoes encoding for every byte string that is not empty. */
  lemma {:induction false} DecodeOfEncode(x: seq<Byte>)
    requires x != []
    ensures |Encode(x)| > 0 && |Encode(x)| % 4 == 0 && Decode(Encode(x)) == x
  {
    EncodedLength(x);
    if |x| < 3 {
      DecodeShort(x);
    } else {
      EncodeLong(x);
      GroupOfThree(x[0], x[1], x[2]);
      var q := Four(First(x[0]), Second(x[0], x[1]), Third(x[1], x[2]), Fourth(x[2]));
      BitsOfFour(First(x[0]), Second(x[0], x[1]), Third(x[1], x[2]), Fourth(x[2]));
      assert x == [x[0], x[1], x[2]] + x[3..];
      if |x| == 3 {
        LastGroup(q);
        assert Encode(x[3..]) == [];
        hide Encode, Group, Groups, Four, Bits, First, Second, Third, Fourth;
        assert Encode(x) == q;
      } else {
        DecodeOfEncode(x[3..]);
        hide Encode, Decode, Group, Four, Bits, First, Second, Third, Fourth;
        DecodeStep(q, Encode(x[3..]));
      }
    }
  }

  lemma CanonicalLong(q: seq<char>, s: seq<char>)
    requires |q| == 4 && InAlphabet(q[0]) && InAlphabet(q[1]) && InAlphabet(q[2]) && InAlphabet(q[3]) && q[3] != '='
    requires Canonical(s)
    ensures Canonical(q + s)
  {
    hide InAlphabet, Digit;
    assert (q + s)[4..] == s;
  }

  lemma CanonicalPadded(e: seq<char>)
    requires |e| == 4 && e[3] == '=' && InAlphabet(e[0]) && InAlphabet(e[1])
    requires if e[2] == '=' then Digit(e[1]) % 16 == 0 else InAlphabet(e[2]) && Digit(e[2]) % 4 == 0
    ensures Canonical(e)
  {
    hide InAlphabet, Digit;
  }

  lemma NoStrayBits(a: Byte, b: Byte)
    ensures Third(b, 0) % 4 == 0 && Second(a, 0) % 16 == 0
  {
  }

  lemma CanonicalShort(x: seq<Byte>)
    requires 1 <= |x| <= 2
    ensures Canonical(Encode(x))
  {
    hide *;
    var b := if |x| == 2 then x[1] else 0;
    var q := Four(First(x[0]), Second(x[0], b), Third(b, 0), Fourth(0));
    NoBits();
    BitsOfFour(First(x[0]), Second(x[0], b), Third(b, 0), Fourth(0));
    EncodeShort(x);
    PaddedBits(q, Encode(x), |x|);
    InAlphabetFour(First(x[0]), Second(x[0], b), Third(b, 0), Fourth(0));
    NoStrayBits(x[0], b);
    DigitsOfFour(First(x[0]), Second(x[0], b), Third(b, 0), Fourth(0));
    CanonicalPadded(Encode(x));
  }

  lemma DigitsOfFour(a: Sextet, b: Sextet, c: Sextet, d: Sextet)
    ensures var q := Four(a, b, c, d); Digit(q[1]) == b && Digit(q[2]) == c
  {
    CharDigit(b);
    CharDigit(c);
    hide Char, Digit;
  }

  lemma {:induction false} EncodeIsCanonical(x: seq<Byte>)
    ensures Canonical(Encode(x))
  {
    if |x| >= 3 {
      EncodeIsCanonical(x[3..]);
      EncodeLong(x);
      InAlphabetFour(First(x[0]), Second(x[0], x[1]), Third(x[1], x[2]), Fourth(x[2]));
      hide *;
      CanonicalLong(Four(First(x[0]), Second(x[0], x[1]), Third(x[1], x[2]), Fourth(x[2])), Encode(x[3..]));
    } else if x != [] {
      CanonicalShort(x);
    }
  }

  lemma InAlphabetFour(a: Sextet, b: Sextet, c: Sextet, d: Sextet)
    ensures var q := Four(a, b, c, d);
            InAlphabet(q[0]) && InAlphabet(q[1]) && InAlphabet(q[2]) && InAlphabet(q[3]) && q[3] != '='
  {
    CharDigit(a);
    CharDigit(b);
    CharDigit(c);
    CharDigit(d);
    hide Char, Digit, InAlphabet;
  }

  lemma FourOfBits(q: seq<char>)
    requires |q| == 4 && InAlphabet(q[0]) && InAlphabet(q[1]) && InAlphabet(q[2]) && InAlphabet(q[3])
    ensures Four(Bits(q[0]), Bits(q[1]), Bits(q[2]), Bits(q[3])) == q && q[2] != '=' && q[3] != '='
  {
    DigitChar(q[0]);
    DigitChar(q[1]);
    DigitChar(q[2]);
    DigitChar(q[3]);
    hide Char, Digit, InAlphabet;
  }

  lemma GroupThenRest(q: seq<char>, x: seq<Byte>)
    requires |q| == 4 && InAlphabet(q[0]) && InAlphabet(q[1]) && InAlphabet(q[2]) && InAlphabet(q[3])
    ensures Encode(Group(Bits(q[0]), Bits(q[1]), Bits(q[2]), Bits(q[3])) + x) == q + Encode(x)
  {
    var g := Group(Bits(q[0]), Bits(q[1]), Bits(q[2]), Bits(q[3]));
    FourOfBits(q);
    SextetsOfGroup(Bits(q[0]), Bits(q[1]), Bits(q[2]), Bits(q[3]));
    hide *;
    assert (g + x)[3..] == x && (g + x)[0] == g[0] && (g + x)[1] == g[1] && (g + x)[2] == g[2];
    EncodeLong(g + x);
  }

  lemma PaddedGroup(q: seq<char>)
    requires |q| == 4 && q[3] == '=' && Canonical(q)
    ensures Encode(Decode(q)) == q
  {
    DecodeGroup(q);
    var n := if q[2] == '=' then 1 else 2;
    var c := if n == 1 then 0 else Bits(q[2]);
    var g := Group(Bits(q[0]), Bits(q[1]), c, 0);
    assert Bits('=') == 0;
    assert Decode(q) == g[..n];
    DigitChar(q[0]);
    DigitChar(q[1]);
    if n == 2 {
      DigitChar(q[2]);
    }
    StraylessGroup(Bits(q[0]), Bits(q[1]), c, n);
    EncodeShort(g[..n]);
    hide Encode, Decode, Group, First, Second, Third, Char, Digit, InAlphabet, Canonical;
  }

  lemma StraylessGroup(a: Sextet, b: Sextet, c: Sextet, n: nat)
    requires if n == 1 then c == 0 && b % 16 == 0 else c % 4 == 0
    ensures var g := Group(a, b, c, 0);
            First(g[0]) == a && (n == 1 ==> Second(g[0], 0) == b) && Second(g[0], g[1]) == b && Third(g[1], 0) == c
  {
  }

  /** Encoding undoes decoding for every canonical text that is not empty. */
  lemma {:induction false} EncodeOfDecode(s: seq<char>)
    requires Canonical(s) && s != []
    ensures |s| % 4 == 0 && Encode(Decode(s)) == s
  {
    if |s| == 4 && s[3] == '=' {
      PaddedGroup(s);
    } else {
      var q, t := s[..4], s[4..];
      assert s == q + t && Canonical(t);
      assert InAlphabet(q[0]) && InAlphabet(q[1]) && InAlphabet(q[2]) && InAlphabet(q[3]);
      if t == [] {
        FourOfBits(q);
        DecodeGroup(q);
        var g := Group(Bits(q[0]), Bits(q[1]), Bits(q[2]), Bits(q[3]));
        GroupThenRest(q, []);
        assert Encode([]) == [];
        hide *;
        assert g[..3] == g && g + [] == g && s == q && q + [] == q;
      } else {
        EncodeOfDecode(t);
        hide *;
        DecodeStep(q, t);
        GroupThenRest(q, Decode(t));
      }
    }
  }

  /** Among the texts of whole groups, exactly the canonical ones survive decoding and encoding. */
  lemma SurvivesExactly(s: seq<char>)
    requires |s| % 4 == 0 && s != []
    ensures Encode(Decode(s)) == s <==> Canonical(s)
  {
    EncodeIsCanonical(Decode(s));
    if Canonical(s) {
      EncodeOfDecode(s);
    }
  }

  // ---------- the code ----------

  function OctetAt(x: seq<Byte>, i: nat): Byte {
    if i < |x| then x[i] else 0
  }

  /** The loop of the encoder: missing bytes of the last group are zero, padding comes later. */
  function ZeroFilled(x: seq<Byte>): (q: seq<char>)
    ensures |q| == 4 * ((|x| + 2) / 3)
    decreases |x|
  {
    if x == [] then []
    else
      GroupsOfThree(|x|);
      var b, c := OctetAt(x, 1), OctetAt(x, 2);
      Four(First(x[0]), Second(x[0], b), Third(b, c), Fourth(c)) + ZeroFilled(if |x| > 3 then x[3..] else [])
  }

  lemma GroupsOfThree(n: nat)
    requires n > 0
    ensures (n + 2) / 3 == 1 + (if n > 3 then n - 3 + 2 else 2) / 3
  {
  }

  /** `mod_table`. */
  function PadCount(n: nat): nat {
    if n % 3 == 0 then 0 else if n % 3 == 1 then 2 else 1
  }

  /** The last `k` characters replaced by padding. */
  function Equals(q: seq<char>, k: nat): seq<char>
    requires k <= 2 && k <= |q|
  {
    q[..|q| - k] + (if k == 0 then [] else if k == 1 then ['='] else ['=', '='])
  }

  lemma EqualsBehind(p: seq<char>, q: seq<char>, k: nat)
    requires k <= 2 && k <= |q|
    ensures Equals(p + q, k) == p + Equals(q, k)
  {
    assert (p + q)[..|p + q| - k] == p + q[..|q| - k];
  }

  lemma FilledLong(x: seq<Byte>)
    requires |x| >= 3
    ensures ZeroFilled(x) == Four(First(x[0]), Second(x[0], x[1]), Third(x[1], x[2]), Fourth(x[2])) + ZeroFilled(x[3..])
  {
    hide Four, First, Second, Third, Fourth;
    assert (if |x| > 3 then x[3..] else []) == x[3..];
  }

  lemma FilledShort(x: seq<Byte>)
    requires 1 <= |x| <= 2
    ensures var b := if |x| == 2 then x[1] else 0;
            ZeroFilled(x) == Four(First(x[0]), Second(x[0], b), Third(b, 0), Fourth(0))
  {
    hide Four, First, Second, Third, Fourth;
    assert ZeroFilled([]) == [];
  }

  lemma SamePads(n: nat)
    ensures PadCount(n + 3) == PadCount(n) <= 2 && (n > 0 ==> PadCount(n) <= 4 * ((n + 2) / 3)) && PadCount(0) == 0
    ensures n == 1 ==> PadCount(n) == 2
    ensures n == 2 ==> PadCount(n) == 1
  {
  }

  lemma {:induction false} PaddedAfterwards(x: seq<Byte>)
    ensures PadCount(|x|) <= 2 && PadCount(|x|) <= |ZeroFilled(x)|
    ensures Equals(ZeroFilled(x), PadCount(|x|)) == Encode(x)
  {
    SamePads(|x|);
    if |x| >= 3 {
      SamePads(|x| - 3);
      PaddedAfterwards(x[3..]);
      EncodeLong(x);
      FilledLong(x);
      hide *;
      var q := Four(First(x[0]), Second(x[0], x[1]), Third(x[1], x[2]), Fourth(x[2]));
      EqualsBehind(q, ZeroFilled(x[3..]), PadCount(|x|));
    } else if x != [] {
      EncodeShort(x);
      FilledShort(x);
      hide Encode, ZeroFilled, Four, First, Second, Third, Fourth, PadCount;
    }
  }

  lemma TripleSextets(a: Byte, b: Byte, c: Byte)
    ensures var t := a * 0x1_0000 + b * 0x100 + c;
            t / 0x4_0000 % 64 == First(a) && t / 0x1000 % 64 == Second(a, b) &&
            t / 64 % 64 == Third(b, c) && t % 64 == Fourth(c)
  {
    var t := a * 0x1_0000 + b * 0x100 + c;
    ModUnique(t, a / 4, 0x4_0000, a % 4 * 0x1_0000 + b * 0x100 + c);
    ModUnique(a / 4, 0, 64, a / 4);
    ModUnique(t, a * 16 + b / 16, 0x1000, b % 16 * 0x100 + c);
    ModUnique(a * 16 + b / 16, a / 4, 64, a % 4 * 16 + b / 16);
    ModUnique(t, a * 1024 + b * 4 + c / 64, 64, c % 64);
    ModUnique(a * 1024 + b * 4 + c / 64, a * 16 + b / 16, 64, b % 16 * 4 + c / 64);
  }

  lemma HighByte(a: Sextet, b: Sextet, c: Sextet, d: Sextet)
    ensures (a * 0x4_0000 + b * 0x1000 + c * 64 + d) / 0x1_0000 % 256 == a * 4 + b / 16
  {
    ModUnique(a * 0x4_0000 + b * 0x1000 + c * 64 + d, a * 4 + b / 16, 0x1_0000, b % 16 * 0x1000 + c * 64 + d);
  }

  lemma MiddleByte(a: Sextet, b: Sextet, c: Sextet, d: Sextet)
    ensures (a * 0x4_0000 + b * 0x1000 + c * 64 + d) / 0x100 % 256 == b % 16 * 16 + c / 4
  {
    ModUnique(a * 0x4_0000 + b * 0x1000 + c * 64 + d, a * 1024 + b * 16 + c / 4, 0x100, c % 4 * 64 + d);
    ModUnique(a * 1024 + b * 16 + c / 4, a * 4 + b / 16, 256, b % 16 * 16 + c / 4);
  }

  lemma LowByte(a: Sextet, b: Sextet, c: Sextet, d: Sextet)
    ensures (a * 0x4_0000 + b * 0x1000 + c * 64 + d) % 256 == c % 4 * 64 + d
  {
    ModUnique(a * 0x4_0000 + b * 0x1000 + c * 64 + d, a * 1024 + b * 16 + c / 4, 0x100, c % 4 * 64 + d);
  }

  lemma NothingYet(x: seq<Byte>, e: seq<char>)
    requires e == []
    ensures e + ZeroFilled(x[0..]) == ZeroFilled(x)
  {
    assert x[0..] == x;
  }

  lemma FilledStep(x: seq<Byte>, rest: seq<Byte>)
    requires x != [] && rest == if |x| > 3 then x[3..] else []
    ensures var b, c := OctetAt(x, 1), OctetAt(x, 2);
            ZeroFilled(x)
            == [Char(First(x[0])), Char(Second(x[0], b)), Char(Third(b, c)), Char(Fourth(c))] + ZeroFilled(rest)
  {
    hide Char, First, Second, Third, Fourth, OctetAt;
  }

  lemma NoneLeft()
    ensures ZeroFilled([]) == []
  {
  }

  lemma OneMoreEquals(q: seq<char>, k: nat)
    requires k + 1 <= 2 && k + 1 <= |q|
    ensures Equals(q, k)[|q| - 1 - k := '='] == Equals(q, k + 1)
  {
  }

  /** The loop of `base64_encode`. */
  method EncodeQuads(data: seq<Byte>, encoded: array<char>)
    requires encoded.Length == 4 * ((|data| + 2) / 3)
    modifies encoded
    ensures encoded[..] == ZeroFilled(data)
  {
    hide *;
    var i, j := 0, 0;
    NothingYet(data, encoded[..0]);
    while i < |data|
      invariant i <= |data| && j + 4 * ((|data| - i + 2) / 3) == encoded.Length
      invariant encoded[..j] + ZeroFilled(data[i..]) == ZeroFilled(data)
    {
      ghost var rest := data[i..];
      var a := data[i];
      var b := if i + 1 < |data| then data[i + 1] else 0;
      var c := if i + 2 < |data| then data[i + 2] else 0;
      Octets(data, i);
      i := if i + 3 < |data| then i + 3 else |data|;
      WriteQuad(encoded, j, a, b, c);
      FilledStep(rest, data[i..]);
      j := j + 4;
    }
    NoneLeft();
    assert data[i..] == [] && encoded[..j] == encoded[..];
  }

  lemma Octets(x: seq<Byte>, i: nat)
    requires i < |x|
    ensures var r := x[i..];
            r[0] == x[i] && OctetAt(r, 1) == (if i + 1 < |x| then x[i + 1] else 0) &&
            OctetAt(r, 2) == (if i + 2 < |x| then x[i + 2] else 0)
    ensures x[(if i + 3 < |x| then i + 3 else |x|)..] == if |x[i..]| > 3 then x[i..][3..] else []
  {
  }

  method WriteQuad(encoded: array<char>, j: nat, a: Byte, b: Byte, c: Byte)
    requires j + 4 <= encoded.Length
    modifies encoded
    ensures encoded[..j + 4] ==
            old(encoded[..j]) + [Char(First(a)), Char(Second(a, b)), Char(Third(b, c)), Char(Fourth(c))]
  {
    var triple := a * 0x1_0000 + b * 0x100 + c;
    TripleSextets(a, b, c);
    hide *;
    encoded[j] := Char(triple / 0x4_0000 % 64);
    encoded[j + 1] := Char(triple / 0x1000 % 64);
    encoded[j + 2] := Char(triple / 64 % 64);
    encoded[j + 3] := Char(triple % 64);
  }

  /** `base64_encode`: whole groups first, then padding over the last characters. */
  method EncodeData(data: seq<Byte>) returns (encoded: array<char>)
    ensures fresh(encoded) && encoded[..] == Encode(data)
  {
    var length := 4 * ((|data| + 2) / 3);
    encoded := new char[length];
    PaddedAfterwards(data);
    var pads := PadCount(|data|);
    assert pads <= 2;
    hide *;
    EncodeQuads(data, encoded);
    ghost var filled := encoded[..];
    var i := 0;
    NoPads(filled);
    while i < pads
      invariant i <= pads && encoded[..] == Equals(filled, i)
      modifies encoded
    {
      OneMoreEquals(filled, i);
      encoded[length - 1 - i] := '=';
      i := i + 1;
    }
  }

  lemma NoPads(q: seq<char>)
    ensures Equals(q, 0) == q
  {
  }

  /** `build_decoding_table`: only the entries of the alphabet are filled. */
  method BuildDecodingTable() returns (table: array<int>)
    ensures fresh(table) && table.Length == 256
    ensures forall c: char :: InAlphabet(c) ==> c as int < 256 && table[c as int] == Digit(c)
  {
    table := new int[256];
    var i := 0;
    while i < 64
      invariant i <= 64
      invariant forall c: char :: InAlphabet(c) && Digit(c) < i ==> table[c as int] == Digit(c)
    {
      CharDigit(i);
      forall c: char | InAlphabet(c)
        ensures Digit(c) == i <==> c == Char(i)
      {
        DigitChar(c);
      }
      table[Char(i) as int] := i;
      i := i + 1;
    }
  }

  lemma {:induction false} GroupsSplit(s: seq<char>, t: seq<char>)
    requires |s| % 4 == 0 && |t| % 4 == 0
    ensures Groups(s + t) == Groups(s) + Groups(t)
  {
    hide Group;
    if s == [] {
      assert s + t == t;
    } else {
      GroupsSplit(s[4..], t);
      assert (s + t)[4..] == s[4..] + t;
    }
  }

  /** The loop of `base64_decode`: bytes past the length are dropped. */
  method DecodeGroups(data: seq<char>, table: array<int>, decoded: array<Byte>)
    requires |data| % 4 == 0 && decoded.Length <= |data| / 4 * 3
    requires forall c :: c in data ==> InAlphabet(c) || c == '='
    requires table.Length == 256 && forall c: char :: InAlphabet(c) ==> c as int < 256 && table[c as int] == Digit(c)
    modifies decoded
    ensures decoded[..] == Groups(data)[..decoded.Length]
  {
    hide *;
    var length := decoded.Length;
    var i, j := 0, 0;
    ghost var m := 0;
    NoGroups(data);
    while i < |data|
      invariant i == 4 * m <= |data| && j == (if 3 * m < length then 3 * m else length)
      invariant |Groups(data[..i])| == 3 * m && decoded[..j] == Groups(data[..i])[..j]
    {
      var a := SextetOf(table, data[i]);
      var b := SextetOf(table, data[i + 1]);
      var c := SextetOf(table, data[i + 2]);
      var d := SextetOf(table, data[i + 3]);
      NextGroup(data, i);
      ghost var before := Groups(data[..i]);
      ghost var k := j;
      j := WriteGroup(decoded, j, a, b, c, d);
      Cut(before, Group(a, b, c, d), k, j);
      i := i + 4;
      m := m + 1;
    }
    assert data[..i] == data && decoded[..j] == decoded[..];
  }

  lemma Cut(s: seq<Byte>, g: seq<Byte>, k: nat, j: nat)
    requires |g| == 3 && k <= |s| && k <= j <= k + 3 && (k < |s| ==> j == k)
    ensures s[..k] + g[..j - k] == (s + g)[..j]
  {
  }

  /** `base64_decode`; a text whose length is not a multiple of four is refused. */
  method DecodeData(data: seq<char>) returns (ok: bool, decoded: array<Byte>)
    requires data != [] && forall c :: c in data ==> InAlphabet(c) || c == '='
    ensures ok <==> |data| % 4 == 0
    ensures ok ==> decoded[..] == Decode(data)
  {
    hide Groups, InAlphabet, Digit;
    if |data| % 4 != 0 {
      return false, new Byte[0];
    }
    var table := BuildDecodingTable();
    var length := |data| / 4 * 3;
    if data[|data| - 1] == '=' {
      length := length - 1;
    }
    if data[|data| - 2] == '=' {
      length := length - 1;
    }
    decoded := new Byte[length];
    ok := true;
    DecodeGroups(data, table, decoded);
  }

  lemma NoGroups(s: seq<char>)
    ensures Groups(s[..0]) == []
  {
  }

  lemma NextGroup(s: seq<char>, i: nat)
    requires i + 4 <= |s| && i % 4 == 0
    ensures Groups(s[..i + 4]) == Groups(s[..i]) + Group(Bits(s[i]), Bits(s[i + 1]), Bits(s[i + 2]), Bits(s[i + 3]))
  {
    var q := s[i..i + 4];
    assert s[..i + 4] == s[..i] + q;
    GroupsSplit(s[..i], q);
    LastGroup(q);
    hide Group, Groups, Bits;
  }

  method SextetOf(table: array<int>, c: char) returns (v: Sextet)
    requires table.Length == 256 && (InAlphabet(c) || c == '=')
    requires InAlphabet(c) ==> c as int < 256 && table[c as int] == Digit(c)
    ensures v == Bits(c)
  {
    if c == '=' {
      v := 0;
    } else {
      v := table[c as int];
    }
  }

  /** The three bytes of a group, as far as they fit. */
  method WriteGroup(decoded: array<Byte>, j: nat, a: Sextet, b: Sextet, c: Sextet, d: Sextet) returns (k: nat)
    requires j <= decoded.Length
    modifies decoded
    ensures k == if j + 3 < decoded.Length then j + 3 else decoded.Length
    ensures decoded[..k] == old(decoded[..j]) + Group(a, b, c, d)[..k - j]
  {
    var triple := a * 0x4_0000 + b * 0x1000 + c * 64 + d;
    HighByte(a, b, c, d);
    MiddleByte(a, b, c, d);
    LowByte(a, b, c, d);
    k := j;
    var x, y, z := triple / 0x1_0000 % 256, triple / 0x100 % 256, triple % 256;
    ghost var g := Group(a, b, c, d);
    assert g == [x, y, z];
    hide Group;
    if k < decoded.Length {
      decoded[k] := x;
      k := k + 1;
    }
    if k < decoded.Length {
      decoded[k] := y;
      k := k + 1;
    }
    if k < decoded.Length {
      decoded[k] := z;
      k := k + 1;
    }
  }

  // ---------- known answers (sections 4 and 10 of RFC 4648) ----------

  /** The alphabet: letters, digits, plus and slash, in this order. */
  lemma Alphabet(n: Sextet)
    ensures n < 26 ==> Char(n) == "ABCDEFGHIJKLMNOPQRSTUVWXYZ"[n]
    ensures 26 <= n < 52 ==> Char(n) == "abcdefghijklmnopqrstuvwxyz"[n - 26]
    ensures 52 <= n < 62 ==> Char(n) == "0123456789"[n - 52]
    ensures n >= 62 ==> Char(n) == "+/"[n - 62]
  {
  }

  /** The examples "f", "fo", "foo" and "foobar" of section 10. */
  lemma Examples()
    ensures Encode([]) == "" && Encode([102]) == "Zg==" && Encode([102, 111]) == "Zm8="
    ensures Encode([102, 111, 111]) == "Zm9v" && Encode([102, 111, 111, 98, 97, 114]) == "Zm9vYmFy"
  {
    var x := [102, 111, 111, 98, 97, 114];
    assert x[3..] == [98, 97, 114] && [98, 97, 114][3..] == [] && [102, 111, 111][3..] == [];
  }
}
