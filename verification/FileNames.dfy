/** The 8.3 name mangler, filename8_3 of gemdos/path.c. Characters are bytes. */
module FileNames {
  import opened Words
  import opened Bits

  type Name = seq<u8>

  const DOT: u8 := 0x2e
  const TILDE: u8 := 0x7e
  const UNDERSCORE: u8 := 0x5f

  /** END_OF_NAME: NUL, slash and backslash. */
  predicate Ends(c: u8) {
    c == 0 || c == 0x2f || c == 0x5c
  }

  /** A file name: characters up to one that ends it. */
  predicate IsName(n: Name) {
    forall i :: 0 <= i < |n| ==> !Ends(n[i])
  }

  function ToUpper(c: u8): u8 {
    if 0x61 <= c <= 0x7a then c - 0x20 else c
  }

  /** The domain of the process decides whether names become upper case. */
  function Cased(c: u8, upper: bool): u8 {
    if upper then ToUpper(c) else c
  }

  function Mapped(n: Name, upper: bool): Name {
    seq(|n|, i requires 0 <= i < |n| => if n[i] == DOT then UNDERSCORE else Cased(n[i], upper))
  }

  predicate IsDots(n: Name) {
    n == [DOT] || n == [DOT, DOT]
  }

  /** The last dot, unless it is the first character; the length of the name if there is none. */
  function Dot(n: Name): (d: nat)
    ensures d <= |n| && (d < |n| ==> d > 0 && n[d] == DOT) && forall i :: d < i < |n| ==> n[i] != DOT
    ensures d == |n| ==> forall i :: 0 < i < |n| ==> n[i] != DOT
  {
    LastDot(n, |n|)
  }

  function LastDot(n: Name, k: nat): (d: nat)
    requires k <= |n| && forall i :: k <= i < |n| ==> n[i] != DOT
    ensures d <= |n| && (d < |n| ==> d > 0 && n[d] == DOT) && forall i :: d < i < |n| ==> n[i] != DOT
    ensures d == |n| ==> forall i :: 0 < i < |n| ==> n[i] != DOT
  {
    if k <= 1 then |n| else if n[k - 1] == DOT then k - 1 else LastDot(n, k - 1)
  }

  function Min(a: nat, b: nat): nat {
    if a < b then a else b
  }

  /** The part of the name before the extension, cut to eight characters. */
  function Base(n: Name): Name {
    n[..Min(Dot(n), 8)]
  }

  /** The extension with its dot, cut to four characters. */
  function Extension(n: Name): Name {
    n[Dot(n)..Min(|n|, Dot(n) + 4)]
  }

  /** The parts do not fit the limits. */
  predicate TooLong(n: Name) {
    |n| > 12 || Dot(n) > 8 || |n| - Dot(n) > 4
  }

  /** The short name needs a hash: a part is too long, or a dot in the base has been replaced. */
  predicate NeedsHash(n: Name) {
    TooLong(n) || DOT in Base(n)
  }

  /** XOR of two 16-bit numbers. */
  function Xor(x: u16, y: u16): (r: u16) {
    XorBelow(x, y);
    Or(x, y) - And(x, y)
  }

  lemma XorBelow(x: u16, y: u16)
    ensures 0 <= Or(x, y) - And(x, y) < 0x1_0000
  {
    hide And;
    assert Pow2(8) == 0x100;
    assert Pow2(16) == 0x1_0000;
    OrBelow(x, y, 16);
  }

  /** A char as the 16 low bits of an int; char is signed. */
  function Widened(c: u8): u16 {
    if c < 0x80 then c else 0xff00 + c
  }

  /** `(hash << 3) ^ (hash >> 5) ^ c` in 16 bits. */
  function Mixed(hash: u16, c: u8): u16 {
    Xor(Xor(hash * 8 % 0x1_0000, hash / 0x20), Widened(c))
  }

  /** One turn of the hash loop, with a character and the next one. */
  function Stirred(hash: u16, c: u8, next: u8): u16 {
    Xor(Mixed(hash, c), next * 0x100)
  }

  /** The hash after the first `k` characters of the loop. */
  function HashLoop(n: Name, k: nat): u16
    requires k < |n|
  {
    if k == 0 then 0xf00f else Stirred(HashLoop(n, k - 1), n[k - 1], n[k])
  }

  function Hash(n: Name): u16
    requires n != []
  {
    Mixed(HashLoop(n, |n| - 1), n[|n| - 1])
  }

  /** hash_alphabet: A to Z and 0 to 5. */
  function Letter(i: nat): u8
    requires i < 0x20
  {
    if i < 26 then 0x41 + i else 0x30 + i - 26
  }

  function HashTail(n: Name): (t: Name)
    requires n != []
    ensures |t| == 4
  {
    [TILDE, Letter(Hash(n) / 0x400 % 0x20), Letter(Hash(n) / 0x20 % 0x20), Letter(Hash(n) % 0x20)]
  }

  /** The first four characters of the base, padded. */
  function HashHead(n: Name, upper: bool): (h: Name)
    ensures |h| == 4
  {
    (Mapped(Base(n), upper) + [TILDE, TILDE, TILDE, TILDE])[..4]
  }

  function Copied(n: Name, upper: bool): Name {
    seq(|n|, i requires 0 <= i < |n| => Cased(n[i], upper))
  }

  /** The short name. */
  function Short(n: Name, upper: bool): Name {
    if n == [] || IsDots(n) then n
    else if NeedsHash(n) then HashHead(n, upper) + HashTail(n) + Copied(Extension(n), upper)
    else Copied(n, upper)
  }

  // ---------------------------------------------------------------- what a short name looks like

  predicate NoDots(n: Name) {
    DOT !in n
  }

  /** One to eight characters other than a dot, then perhaps a dot and up to three more of them. */
  predicate EightThree(n: Name) {
    var d := Dot(n);
    1 <= d <= 8 && |n| - d <= 4 && NoDots(n[..d]) && (d < |n| ==> NoDots(n[d + 1..]))
  }

  lemma NoHashIsEightThree(n: Name)
    requires n != [] && !IsDots(n)
    ensures !NeedsHash(n) <==> EightThree(n)
  {
  }

  lemma CasedIs(c: u8, upper: bool)
    ensures Cased(c, upper) == DOT <==> c == DOT
    ensures Cased(Cased(c, upper), upper) == Cased(c, upper)
    ensures Ends(Cased(c, upper)) <==> Ends(c)
  {
  }

  lemma {:induction false} LastDotIs(n: Name, k: nat, d: nat)
    requires 0 < d < k <= |n| && n[d] == DOT && forall i :: d < i < |n| ==> n[i] != DOT
    ensures LastDot(n, k) == d
  {
    if d < k - 1 {
      LastDotIs(n, k - 1, d);
    }
  }

  lemma {:induction false} NoLastDot(n: Name, k: nat)
    requires k <= |n| && (k == 0 ==> n == []) && forall i :: 0 < i < |n| ==> n[i] != DOT
    ensures LastDot(n, k) == |n|
  {
    if k > 1 {
      NoLastDot(n, k - 1);
    }
  }

  /** The last dot of a name is where it is however it is found. */
  lemma DotIs(n: Name, d: nat)
    requires d <= |n| && (d < |n| ==> d > 0 && n[d] == DOT && forall i :: d < i < |n| ==> n[i] != DOT)
    requires d == |n| ==> forall i :: 0 < i < |n| ==> n[i] != DOT
    ensures Dot(n) == d
  {
    if d < |n| {
      LastDotIs(n, |n|, d);
    } else {
      NoLastDot(n, |n|);
    }
  }

  lemma HashedShape(n: Name, upper: bool)
    requires n != [] && !IsDots(n) && NeedsHash(n)
    ensures var r := Short(n, upper);
      |r| == 8 + |Extension(n)| && Dot(r) == 8 && EightThree(r)
  {
    hide Letter, Hash, Cased, ToUpper;
    var r := Short(n, upper);
    var head, tail := HashHead(n, upper), HashTail(n);
    LettersAreNotDots(n);
    forall i | 0 <= i < 4 ensures head[i] != DOT {
      HeadHasNoDots(n, upper, i);
    }
    ExtensionIs(n, upper);
    DotIs(r, 8);
  }

  lemma LettersAreNotDots(n: Name)
    requires n != []
    ensures |HashTail(n)| == 4 && NoDots(HashTail(n))
    ensures forall i :: 0 <= i < 4 ==> ToUpper(HashTail(n)[i]) == HashTail(n)[i] && !Ends(HashTail(n)[i])
  {
    hide Hash;
  }

  lemma HeadHasNoDots(n: Name, upper: bool, i: nat)
    requires i < 4
    ensures HashHead(n, upper)[i] != DOT
    ensures Cased(HashHead(n, upper)[i], upper) == HashHead(n, upper)[i]
  {
    if i < |Base(n)| {
      CasedIs(Base(n)[i], upper);
    }
  }

  lemma ExtensionIs(n: Name, upper: bool)
    ensures |Extension(n)| <= 4
    ensures Extension(n) != [] ==> Copied(Extension(n), upper)[0] == DOT
    ensures forall i :: 0 < i < |Extension(n)| ==> Copied(Extension(n), upper)[i] != DOT
    ensures forall i :: 0 <= i < |Extension(n)| ==>
      Cased(Copied(Extension(n), upper)[i], upper) == Copied(Extension(n), upper)[i]
  {
    forall i | 0 <= i < |Extension(n)|
      ensures Cased(Copied(Extension(n), upper)[i], upper) == Copied(Extension(n), upper)[i]
      ensures i > 0 ==> Copied(Extension(n), upper)[i] != DOT
    {
      CasedIs(Extension(n)[i], upper);
    }
  }

  lemma CopiedShape(n: Name, upper: bool)
    requires n != [] && !IsDots(n) && EightThree(n)
    ensures Dot(Copied(n, upper)) == Dot(n) && EightThree(Copied(n, upper))
  {
    hide Cased;
    forall i | 0 <= i < |n| ensures Copied(n, upper)[i] == DOT <==> n[i] == DOT {
      CasedIs(n[i], upper);
    }
    DotIs(Copied(n, upper), Dot(n));
  }

  /** The short name of a name is "." or "..", or of the 8.3 form; with its end mark it needs at most 13
      bytes. */
  lemma ShortShape(n: Name, upper: bool)
    requires n != []
    ensures var r := Short(n, upper);
      |r| <= 12 && (if IsDots(n) then r == n else EightThree(r))
  {
    hide Dot, HashHead, HashTail, Extension, Copied, EightThree;
    if !IsDots(n) {
      NoHashIsEightThree(n);
      if NeedsHash(n) {
        HashedShape(n, upper);
        ExtensionIs(n, upper);
      } else {
        CopiedShape(n, upper);
        ShortEnough(Copied(n, upper));
      }
    }
  }

  lemma ShortEnough(n: Name)
    requires EightThree(n)
    ensures 1 <= |n| <= 12 && !IsDots(n)
  {
    assert n[..Dot(n)][0] == n[0];
  }

  lemma ShortKeepsName(n: Name, upper: bool)
    requires IsName(n)
    ensures IsName(Short(n, upper))
  {
    hide Dot, Hash, Letter, Cased, ToUpper, HashTail;
    if n != [] && !IsDots(n) {
      forall i | 0 <= i < |n| ensures !Ends(Cased(n[i], upper)) {
        CasedIs(n[i], upper);
      }
      if NeedsHash(n) {
        LettersAreNotDots(n);
        var b := Base(n);
        forall i | 0 <= i < |b| ensures !Ends(Mapped(b, upper)[i]) {
          assert b[i] == n[i];
        }
      }
    }
  }

  /** Every character of a short name is in its final case. */
  lemma ShortIsCased(n: Name, upper: bool)
    requires n != [] && !IsDots(n)
    ensures Copied(Short(n, upper), upper) == Short(n, upper)
  {
    hide Dot, Hash, Letter, Cased, ToUpper, HashTail, HashHead, Extension;
    var r := Short(n, upper);
    forall i | 0 <= i < |r| ensures Cased(r[i], upper) == r[i] {
      if !NeedsHash(n) {
        CasedIs(n[i], upper);
      } else if i < 4 {
        HeadHasNoDots(n, upper, i);
      } else if i < 8 {
        LettersAreNotDots(n);
        TailIsCased(n, upper, i - 4);
      } else {
        ExtensionIs(n, upper);
        assert r[i] == Copied(Extension(n), upper)[i - 8];
      }
    }
  }

  lemma TailIsCased(n: Name, upper: bool, i: nat)
    requires n != [] && i < 4
    ensures |HashTail(n)| == 4 && Cased(HashTail(n)[i], upper) == HashTail(n)[i]
  {
    hide Hash;
    LettersAreNotDots(n);
  }

  /** Mangling a short name again changes nothing. */
  lemma Idempotent(n: Name, upper: bool)
    ensures Short(Short(n, upper), upper) == Short(n, upper)
  {
    hide Dot, NeedsHash, HashHead, HashTail, Extension, Copied, EightThree;
    if n != [] && !IsDots(n) {
      var r := Short(n, upper);
      ShortShape(n, upper);
      ShortEnough(r);
      NoHashIsEightThree(r);
      ShortIsCased(n, upper);
    }
  }

  /** The mangler leaves exactly the names in 8.3 form and of the right case, and the two dot names. */
  lemma UnchangedIff(n: Name, upper: bool)
    requires n != []
    ensures Short(n, upper) == n <==> IsDots(n) || (EightThree(n) && Copied(n, upper) == n)
  {
    hide Dot, NeedsHash, HashHead, HashTail, Extension, EightThree;
    if !IsDots(n) {
      NoHashIsEightThree(n);
      ShortShape(n, upper);
      ShortIsCased(n, upper);
    }
  }

  // ---------------------------------------------------------------- the characters of a short name

  const LOWER: string := "abcdefghijklmnopqrstuvwxyz"
  const UPPER: string := "ABCDEFGHIJKLMNOPQRSTUVWXYZ"
  const ALPHABET: string := "ABCDEFGHIJKLMNOPQRSTUVWXYZ012345"

  /** `r` is `c` in the case that names get. */
  predicate InCase(c: u8, r: u8, upper: bool) {
    if upper && 'a' as int <= c <= 'z' as int then r == UPPER[c - 'a' as int] as int else r == c
  }

  lemma CasedInCase(c: u8, upper: bool)
    ensures InCase(c, Cased(c, upper), upper)
  {
  }

  /** The names of the directory and its parent stay. */
  lemma DotNames(upper: bool)
    ensures Short([DOT], upper) == [DOT] && Short([DOT, DOT], upper) == [DOT, DOT]
  {
    assert IsDots([DOT]) && IsDots([DOT, DOT]);
  }

  /** A name that fits keeps its characters, in the right case. */
  lemma PlainCharacters(n: Name, upper: bool)
    requires n != [] && !IsDots(n) && !NeedsHash(n)
    ensures |Short(n, upper)| == |n|
    ensures forall i :: 0 <= i < |n| ==> InCase(n[i], Short(n, upper)[i], upper)
  {
    hide NeedsHash, InCase, Cased;
    forall i | 0 <= i < |n| ensures InCase(n[i], Short(n, upper)[i], upper) {
      CasedInCase(n[i], upper);
    }
  }

  /** Character by character, a name that does not fit becomes: the first four characters of its base,
      in the right case, underscores for dots and tildes for what is missing; a tilde; three letters for
      the low fifteen bits of the hash, five bits each; the first four characters of its extension. */
  lemma HashedCharacters(n: Name, upper: bool)
    requires n != [] && !IsDots(n) && NeedsHash(n)
    ensures var r, d, h := Short(n, upper), Dot(n), Hash(n);
      && |r| == 8 + (if |n| - d < 4 then |n| - d else 4)
      && (forall i :: 0 <= i < 4 ==>
            if i >= d then r[i] == '~' as int
            else if n[i] == '.' as int then r[i] == '_' as int
            else InCase(n[i], r[i], upper))
      && r[4] == '~' as int
      && r[5] == ALPHABET[h / 0x400 % 0x20] as int && r[6] == ALPHABET[h / 0x20 % 0x20] as int
      && r[7] == ALPHABET[h % 0x20] as int
      && forall i :: 8 <= i < |r| ==> InCase(n[d + i - 8], r[i], upper)
  {
    hide Dot, Hash, NeedsHash, InCase, Cased, Letter;
    var r, d, h := Short(n, upper), Dot(n), Hash(n);
    HashedIs(n, upper);
    ExtensionAt(n, d);
    LetterIs(h / 0x400 % 0x20);
    LetterIs(h / 0x20 % 0x20);
    LetterIs(h % 0x20);
    hide Short, HashHead, Extension;
    forall i | 0 <= i < 4
      ensures if i >= d then r[i] == '~' as int
              else if n[i] == '.' as int then r[i] == '_' as int
              else InCase(n[i], r[i], upper)
    {
      HeadIs(n, upper, i);
      if i < d {
        CasedInCase(n[i], upper);
      }
    }
    forall i | 8 <= i < |r| ensures InCase(n[d + i - 8], r[i], upper) {
      CasedInCase(n[d + i - 8], upper);
    }
  }

  /** The parts of a hashed name. */
  lemma HashedIs(n: Name, upper: bool)
    requires n != [] && !IsDots(n) && NeedsHash(n)
    ensures var r := Short(n, upper);
      && |r| == 8 + |Extension(n)|
      && (forall i :: 0 <= i < 4 ==> r[i] == HashHead(n, upper)[i])
      && (forall i :: 4 <= i < 8 ==> r[i] == HashTail(n)[i - 4])
      && (forall i :: 8 <= i < |r| ==> r[i] == Cased(Extension(n)[i - 8], upper))
  {
    hide Dot, NeedsHash, HashHead, HashTail, Extension, Cased;
  }

  lemma HeadIs(n: Name, upper: bool, i: nat)
    requires i < 4
    ensures HashHead(n, upper)[i] == if i >= Dot(n) then TILDE else if n[i] == DOT then UNDERSCORE else Cased(n[i], upper)
  {
    hide Dot, Cased;
  }

  lemma LetterIs(i: nat)
    requires i < 0x20
    ensures Letter(i) == ALPHABET[i] as int
  {
  }

  // The hash, bit by bit.

  /** Bit `i` of a 16-bit number shifted left by 3. */
  lemma UpThree(hash: u16, i: nat)
    requires i < 16
    ensures BitAt(hash * 8 % 0x1_0000, i) == if i >= 3 then BitAt(hash, i - 3) else 0
  {
    hide BitAt;
    assert Pow2(3) == 8;
    SixteenBits();
    LowBits(hash * 8, 16, i);
    if i >= 3 {
      BitAbove(hash, 0, 3, i - 3);
    } else {
      BitBelow(hash, 0, 3, i);
      NoBitAbove(0, 0, i);
    }
  }

  lemma SixteenBits()
    ensures Pow2(5) == 0x20 && Pow2(8) == 0x100 && Pow2(16) == 0x1_0000
  {
    assert Pow2(8) == 0x100;
  }

  lemma DownFive(hash: u16, i: nat)
    ensures BitAt(hash / 0x20, i) == BitAt(hash, i + 5)
  {
    hide BitAt;
    SixteenBits();
    BitAbove(hash / 0x20, hash % 0x20, 5, i);
  }

  /** The sign of a char fills the upper bits. */
  lemma SignFills(c: u8, i: nat)
    requires i < 16
    ensures BitAt(Widened(c), i) == BitAt(c, if i < 8 then i else 7)
  {
    hide BitAt;
    SixteenBits();
    if c < 0x80 {
      if i >= 8 {
        NoBitAbove(c, 7, i);
        NoBitAbove(c, 7, 7);
      }
    } else if i < 8 {
      BitBelow(0xff, c, 8, i);
    } else {
      BitAbove(0xff, c, 8, i - 8);
      AllOnes(i - 8);
      BitAbove(1, c - 0x80, 7, 0);
      assert 1 * Pow2(7) + (c - 0x80) == c;
      AllOnes(0);
      HalfBit(1, 0);
    }
  }

  lemma AllOnes(i: nat)
    requires i < 8
    ensures BitAt(0xff, i) == 1
  {
    assert Pow2(0) == 1 && Pow2(1) == 2 && Pow2(2) == 4 && Pow2(3) == 8;
    assert Pow2(4) == 0x10 && Pow2(5) == 0x20 && Pow2(6) == 0x40 && Pow2(7) == 0x80;
    var p := Pow2(i);
    assert p == 1 || p == 2 || p == 4 || p == 8 || p == 0x10 || p == 0x20 || p == 0x40 || p == 0x80;
  }

  /** Each step of the hash is an exclusive or: of the hash shifted left by 3 and right by 5 and a
      character, and of the next character in the upper byte. */
  lemma StirredBits(hash: u16, c: u8, next: u8, i: nat)
    requires i < 16
    ensures BitAt(Mixed(hash, c), i)
      == ((if i >= 3 then BitAt(hash, i - 3) else 0) + BitAt(hash, i + 5) + BitAt(c, if i < 8 then i else 7)) % 2
    ensures BitAt(Stirred(hash, c, next), i)
      == (BitAt(Mixed(hash, c), i) + (if i >= 8 then BitAt(next, i - 8) else 0)) % 2
  {
    hide *;
    MixedBits(hash, c, i);
    NextBits(hash, c, next, i);
  }

  lemma XorBit(x: u16, y: u16, i: nat)
    ensures BitAt(Xor(x, y), i) == (BitAt(x, i) + BitAt(y, i)) % 2
  {
    hide And, Or, BitAt;
    XorBits(x, y, i);
  }

  lemma MixedBits(hash: u16, c: u8, i: nat)
    requires i < 16
    ensures BitAt(Mixed(hash, c), i)
      == ((if i >= 3 then BitAt(hash, i - 3) else 0) + BitAt(hash, i + 5) + BitAt(c, if i < 8 then i else 7)) % 2
  {
    hide Xor, BitAt, Widened;
    UpThree(hash, i);
    DownFive(hash, i);
    SignFills(c, i);
    var up: u16, down: u16 := hash * 8 % 0x1_0000, hash / 0x20;
    XorBit(up, down, i);
    XorBit(Xor(up, down), Widened(c), i);
  }

  lemma NextBits(hash: u16, c: u8, next: u8, i: nat)
    requires i < 16
    ensures BitAt(Stirred(hash, c, next), i)
      == (BitAt(Mixed(hash, c), i) + (if i >= 8 then BitAt(next, i - 8) else 0)) % 2
  {
    hide Xor, BitAt, Mixed;
    SixteenBits();
    XorBit(Mixed(hash, c), next * 0x100, i);
    if i >= 8 {
      BitAbove(next, 0, 8, i - 8);
    } else {
      BitBelow(next, 0, 8, i);
      NoBitAbove(0, 0, i);
    }
  }

  // ---------------------------------------------------------------- the loops

  /** The length of the name at the start of a path. */
  method NameLength(source: seq<u8>) returns (slen: nat)
    requires exists i :: 0 <= i < |source| && Ends(source[i])
    ensures slen < |source| && IsName(source[..slen]) && Ends(source[slen])
  {
    slen := 0;
    while !Ends(source[slen])
      invariant slen < |source| && IsName(source[..slen])
      invariant exists i :: slen <= i < |source| && Ends(source[i])
      decreases |source| - slen
    {
      slen := slen + 1;
    }
  }

  /** The loop that looks for the last dot from behind. */
  method FindDot(n: Name) returns (dot: nat)
    ensures dot == Dot(n)
  {
    dot := |n|;
    var c := |n| - 1;
    while c >= 0
      invariant -1 <= c < |n| && dot == |n|
      invariant forall i :: c < i < |n| ==> n[i] != DOT
    {
      if n[c] == DOT {
        dot := c;
        break;
      }
      c := c - 1;
    }
    if dot == 0 {
      dot := |n|;
    }
    DotIs(n, dot);
  }

  function Tildes(k: nat): Name {
    seq(k, i => TILDE)
  }

  /** The base of the short name as the first loop leaves it. */
  function Padded(n: Name, upper: bool, hash: bool): Name {
    if hash then Mapped(Base(n), upper) + Tildes(8 - |Base(n)|) else Mapped(Base(n), upper)
  }

  /** The loop over the base; `hash` says on entry whether a part is too long. */
  method PutBase(dest: array<u8>, n: Name, dot: nat, upper: bool, tooLong: bool) returns (d: nat, hash: bool)
    requires dest.Length >= 13 && dot == Dot(n)
    modifies dest
    ensures hash == (tooLong || DOT in Base(n))
    ensures d == |Padded(n, upper, hash)| <= 8 && dest[..d] == Padded(n, upper, hash)
    ensures dest[13..] == old(dest[13..])
  {
    hide Dot, Cased;
    hash := tooLong;
    var i := 0;
    while i < 8
      invariant 0 <= i <= |Base(n)|
      invariant hash == (tooLong || DOT in n[..i])
      invariant dest[..i] == Mapped(n[..i], upper)
      invariant dest[13..] == old(dest[13..])
    {
      if i == |n| || i == dot {
        assert Base(n) == n[..i];
        if hash {
          PadWithTildes(dest, i);
          d := 8;
        } else {
          d := i;
        }
        return;
      }
      if n[i] == DOT {
        dest[i] := UNDERSCORE;
        hash := true;
      } else {
        dest[i] := Cased(n[i], upper);
      }
      assert n[..i + 1] == n[..i] + [n[i]];
      i := i + 1;
    }
    assert Base(n) == n[..8];
    d := 8;
  }

  method PadWithTildes(dest: array<u8>, i: nat)
    requires dest.Length >= 13 && i <= 8
    modifies dest
    ensures dest[..8] == old(dest[..i]) + Tildes(8 - i)
    ensures dest[13..] == old(dest[13..])
  {
    for j := i to 8
      invariant dest[..j] == old(dest[..i]) + Tildes(j - i)
      invariant dest[13..] == old(dest[13..])
    {
      dest[j] := TILDE;
    }
  }

  /** `*d++ = c` within the thirteen bytes. */
  method PutChar(dest: array<u8>, end: nat, c: u8)
    requires end < 13 <= dest.Length
    modifies dest
    ensures dest[..end + 1] == old(dest[..end]) + [c]
    ensures dest[13..] == old(dest[13..])
  {
    dest[end] := c;
  }

  lemma CopiedNext(e: Name, i: nat, upper: bool)
    requires i < |e|
    ensures Copied(e[..i + 1], upper) == Copied(e[..i], upper) + [Cased(e[i], upper)]
  {
  }

  /** The extension after the `d` characters of the base. */
  method PutExtension(dest: array<u8>, n: Name, dot: nat, upper: bool, d: nat) returns (end: nat)
    requires dest.Length >= 13 && d <= 8 && dot == Dot(n)
    modifies dest
    ensures end == d + |Extension(n)| <= 12 && dest[..end] == old(dest[..d]) + Copied(Extension(n), upper)
    ensures dest[13..] == old(dest[13..])
  {
    hide Dot, Cased;
    ghost var e, base := Extension(n), dest[..d];
    ExtensionAt(n, dot);
    end := d;
    if dot < |n| {
      PutChar(dest, end, DOT);
      end := end + 1;
      DotStays(upper);
      CopiedNext(e, 0, upper);
      assert e[..0] == [] && Copied([], upper) == [];
      hide Extension, Copied;
      for i := 0 to 3
        invariant end == d + i + 1 && i + 1 <= |e|
        invariant dest[..end] == base + Copied(e[..i + 1], upper)
        invariant dest[13..] == old(dest[13..])
      {
        if dot + 1 + i == |n| {
          break;
        }
        CopiedNext(e, i + 1, upper);
        PutChar(dest, end, Cased(n[dot + 1 + i], upper));
        end := end + 1;
        assert base + Copied(e[..i + 1], upper) + [Cased(e[i + 1], upper)] == base + Copied(e[..i + 2], upper);
      }
      assert e[..end - d] == e;
    }
  }

  lemma ExtensionAt(n: Name, dot: nat)
    requires dot == Dot(n)
    ensures |Extension(n)| == Min(|n| - dot, 4) && forall i :: 0 <= i < |Extension(n)| ==> Extension(n)[i] == n[dot + i]
  {
    hide Dot;
  }

  lemma DotStays(upper: bool)
    ensures Cased(DOT, upper) == DOT
  {
  }

  /** The hash over the whole name. */
  method HashName(n: Name) returns (hash: u16)
    requires n != []
    ensures hash == Hash(n)
  {
    hide Xor, Mixed, Stirred;
    hash := 0xf00f;
    var s := 0;
    while s + 1 < |n|
      invariant s < |n| && hash == HashLoop(n, s)
    {
      hash := Stirred(hash, n[s], n[s + 1]);
      s := s + 1;
    }
    hash := Mixed(hash, n[s]);
  }

  /** The four bytes that the hash puts over the end of the base. */
  method PutHash(dest: array<u8>, n: Name)
    requires dest.Length >= 13 && n != []
    modifies dest
    ensures dest[..] == old(dest[..4]) + HashTail(n) + old(dest[8..])
  {
    hide Hash;
    var hash := HashName(n);
    dest[4] := TILDE;
    dest[5] := Letter(hash / 0x400 % 0x20);
    dest[6] := Letter(hash / 0x20 % 0x20);
    dest[7] := Letter(hash % 0x20);
  }

  /** The base and the extension without the hash. */
  method PutParts(dest: array<u8>, n: Name, dot: nat, upper: bool) returns (end: nat, hash: bool)
    requires dest.Length >= 13 && n != [] && dot == Dot(n)
    modifies dest
    ensures hash == NeedsHash(n) && end == |Padded(n, upper, hash)| + |Extension(n)| <= 12
    ensures dest[..end] == Padded(n, upper, hash) + Copied(Extension(n), upper)
    ensures dest[13..] == old(dest[13..])
  {
    hide Dot, Padded, Copied;
    var d;
    d, hash := PutBase(dest, n, dot, upper, |n| > 12 || dot > 8 || |n| - dot > 4);
    end := PutExtension(dest, n, dot, upper, d);
  }

  lemma PlainParts(n: Name, upper: bool)
    requires !NeedsHash(n)
    ensures Padded(n, upper, false) + Copied(Extension(n), upper) == Copied(n, upper)
  {
    hide Dot, Cased;
    assert Base(n) == n[..Dot(n)] && Extension(n) == n[Dot(n)..];
    assert n == n[..Dot(n)] + n[Dot(n)..];
    NoDotNoHash(n);
    forall i | 0 <= i < Dot(n) ensures Mapped(Base(n), upper)[i] == Cased(n[i], upper) {
      assert n[i] == Base(n)[i];
    }
  }

  lemma NoDotNoHash(n: Name)
    requires !NeedsHash(n)
    ensures forall i :: 0 <= i < |Base(n)| ==> Base(n)[i] != DOT
  {
    hide Dot;
  }

  lemma HashedParts(n: Name, upper: bool)
    ensures |Padded(n, upper, true)| == 8 && Padded(n, upper, true)[..4] == HashHead(n, upper)
  {
    hide Dot, Cased;
  }

  method PutDots(dest: array<u8>, slen: nat)
    requires dest.Length >= 13 && 1 <= slen <= 2
    modifies dest
    ensures dest[..slen + 1] == (if slen == 1 then [DOT] else [DOT, DOT]) + [0]
    ensures dest[13..] == old(dest[13..])
  {
    for i := 0 to slen
      invariant forall k :: 0 <= k < i ==> dest[k] == DOT
      invariant dest[13..] == old(dest[13..])
    {
      dest[i] := DOT;
    }
    dest[slen] := 0;
  }

  /** filename8_3: writes the short name of the name at the start of `source` and its end mark to `dest`,
      no byte past the thirteenth, and returns where the name ends. */
  method FileName83(dest: array<u8>, source: seq<u8>, upper: bool) returns (slen: nat)
    requires dest.Length >= 13 && exists i :: 0 <= i < |source| && Ends(source[i])
    requires !Ends(source[0])
    modifies dest
    ensures 0 < slen < |source| && IsName(source[..slen]) && Ends(source[slen])
    ensures var r := Short(source[..slen], upper);
      |r| <= 12 && dest[..|r| + 1] == r + [0]
    ensures dest[13..] == old(dest[13..])
  {
    hide Dot, NeedsHash, Padded, HashHead, HashTail, Extension, Copied, EightThree, Ends;
    slen := NameLength(source);
    var n := source[..slen];
    ShortShape(n, upper);
    if source[0] == DOT && (slen == 1 || (slen == 2 && source[1] == DOT)) {
      PutDots(dest, slen);
      assert n == if slen == 1 then [DOT] else [DOT, DOT];
      return;
    }
    assert !IsDots(n) by {
      assert n[0] == source[0];
    }
    var dot := FindDot(n);
    var end, hash := PutParts(dest, n, dot, upper);
    Finish(dest, n, upper, end, hash);
  }

  /** The end mark and, for a name that does not fit, the hash. */
  method Finish(dest: array<u8>, n: Name, upper: bool, end: nat, hash: bool)
    requires dest.Length >= 13 && n != [] && !IsDots(n) && hash == NeedsHash(n)
    requires end == |Padded(n, upper, hash)| + |Extension(n)| <= 12
    requires dest[..end] == Padded(n, upper, hash) + Copied(Extension(n), upper)
    modifies dest
    ensures |Short(n, upper)| == end && dest[..end + 1] == Short(n, upper) + [0]
    ensures dest[13..] == old(dest[13..])
  {
    hide Dot, NeedsHash, Padded, HashHead, HashTail, Extension, Copied;
    ghost var text, extension := dest[..end], Copied(Extension(n), upper);
    PutChar(dest, end, 0);
    if hash {
      HashedParts(n, upper);
      CopiedLength(Extension(n), upper);
      ghost var before := dest[..];
      assert before[..end + 1] == text + [0];
      assert before[..4] == HashHead(n, upper) && before[8..end + 1] == extension + [0];
      PutHash(dest, n);
      HashPut(before, dest[..], HashHead(n, upper), HashTail(n), end + 1);
      assert HashHead(n, upper) + HashTail(n) + (extension + [0]) == HashHead(n, upper) + HashTail(n) + extension + [0];
    } else {
      PlainParts(n, upper);
      CopiedLength(n, upper);
      CopiedLength(Extension(n), upper);
    }
  }

  lemma CopiedLength(n: Name, upper: bool)
    ensures |Copied(n, upper)| == |n|
  {
  }

  lemma HashPut(before: Name, after: Name, head: Name, tail: Name, k: nat)
    requires 8 <= k <= |before| && |head| == |tail| == 4 && before[..4] == head
    requires after == before[..4] + tail + before[8..]
    ensures after[..k] == head + tail + before[8..k]
    ensures k <= 13 <= |before| ==> after[13..] == before[13..]
  {
  }
}
