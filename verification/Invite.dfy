/** Invite codes of manual_pair.rs: an address and a port in eleven base-25 characters.

    A code is modelled as characters rather than UTF-8 bytes. A non-ASCII character is in neither the
    alphabet nor the separators, and so are all of its bytes, so both readings reject it. */
module Invite {
  import opened Sequences
  import opened Wrappers

  const ALPHABET := "ACDEFGHJKLMNPQRTUVWXY3479"
  const BASE := 25
  const CODE_LEN := 11
  const DASH_AT := 5
  const PAIRING_PORT := 42100
  const PORTS := 0x1_0000
  const ADDRESSES := 0x1_0000_0000

  // ----- base 25

  predicate Digits(ds: seq<nat>) {
    forall k :: 0 <= k < |ds| ==> ds[k] < BASE
  }

  function Power(n: nat): (r: nat)
    ensures r > 0
  {
    if n == 0 then 1 else Power(n - 1) * BASE
  }

  /** The number a digit string denotes, most significant digit first. */
  function Number(ds: seq<nat>): nat {
    if ds == [] then 0 else Number(ds[..|ds| - 1]) * BASE + ds[|ds| - 1]
  }

  /** The last `n` base-25 digits of `value`. */
  function DigitsOf(value: nat, n: nat): (ds: seq<nat>)
    ensures |ds| == n && Digits(ds)
  {
    if n == 0 then [] else DigitsOf(value / BASE, n - 1) + [value % BASE]
  }

  lemma Quotient(value: nat, p: nat)
    requires value < p * BASE
    ensures value / BASE < p
    ensures value / BASE * BASE + value % BASE == value
  {
  }

  lemma NumberSnoc(front: seq<nat>, r: nat)
    ensures Number(front + [r]) == Number(front) * BASE + r
  {
    assert (front + [r])[..|front|] == front;
  }

  lemma {:induction false} NumberOfDigits(value: nat, n: nat)
    requires value < Power(n)
    ensures Number(DigitsOf(value, n)) == value
  {
    if n > 0 {
      Quotient(value, Power(n - 1));
      NumberOfDigits(value / BASE, n - 1);
      NumberSnoc(DigitsOf(value / BASE, n - 1), value % BASE);
    }
  }

  lemma {:induction false} DigitsOfNumber(ds: seq<nat>)
    requires Digits(ds)
    ensures Number(ds) < Power(|ds|)
    ensures DigitsOf(Number(ds), |ds|) == ds
  {
    if ds != [] {
      var front := ds[..|ds| - 1];
      DigitsOfNumber(front);
      assert Number(ds) / BASE == Number(front) && Number(ds) % BASE == ds[|ds| - 1];
      assert ds == front + [ds[|ds| - 1]];
    }
  }

  /** `d * 25^k`, one factor at a time. */
  function Scaled(d: int, k: nat): int {
    if k == 0 then d else 25 * Scaled(d, k - 1)
  }

  lemma {:induction false} ScaledAdd(a: int, b: int, k: nat)
    ensures Scaled(a + b, k) == Scaled(a, k) + Scaled(b, k)
    ensures Scaled(a - b, k) == Scaled(a, k) - Scaled(b, k)
  {
    if k > 0 { ScaledAdd(a, b, k - 1); }
  }

  lemma {:induction false} NumberAppend(a: seq<nat>, b: seq<nat>)
    ensures Number(a + b) == Scaled(Number(a), |b|) + Number(b)
    decreases |b|
  {
    if b == [] {
      assert a + b == a;
    } else {
      var front := b[..|b| - 1];
      NumberAppend(a, front);
      assert (a + b)[..|a + b| - 1] == a + front;
    }
  }

  /** Eleven digits hold every 48-bit number and stay inside 64 bits; ten do not suffice. */
  lemma ElevenDigits()
    ensures Power(10) < ADDRESSES * PORTS <= Power(CODE_LEN)
    ensures Power(CODE_LEN) < 0x1_0000_0000_0000_0000
  {
    assert Power(2) == 625;
    assert Power(4) == 390625;
    assert Power(6) == 244140625;
    assert Power(8) == 152587890625;
    assert Power(10) == 95367431640625;
  }

  // ----- characters

  function IndexFrom(c: char, i: nat): (r: Option<nat>)
    requires i <= |ALPHABET|
    ensures r.Some? ==> i <= r.value < |ALPHABET| && ALPHABET[r.value] == c
    ensures r.None? ==> forall k :: i <= k < |ALPHABET| ==> ALPHABET[k] != c
    decreases |ALPHABET| - i
  {
    if i == |ALPHABET| then None
    else if ALPHABET[i] == c then Some(i)
    else IndexFrom(c, i + 1)
  }

  /** Where `c` stands in the alphabet. */
  function Index(c: char): (r: Option<nat>)
    ensures r.Some? ==> r.value < BASE
  {
    IndexFrom(c, 0)
  }

  lemma LettersDiffer(i: nat, j: nat)
    requires i < BASE && j < BASE && i != j
    ensures ALPHABET[i] != ALPHABET[j]
  {
  }

  lemma {:induction false} IndexFromLetter(d: nat, i: nat)
    requires i <= d < BASE
    ensures IndexFrom(ALPHABET[d], i) == Some(d)
    decreases d - i
  {
    if i < d {
      LettersDiffer(i, d);
      IndexFromLetter(d, i + 1);
    }
  }

  lemma IndexOfLetter(d: nat)
    requires d < BASE
    ensures Index(ALPHABET[d]) == Some(d)
  {
    IndexFromLetter(d, 0);
  }

  predicate IsSeparator(c: char) {
    c == ' ' || c == '\t' || c == '\n' || c == '\r' || c == '\U{000C}' || c == '-'
  }

  function Upper(c: char): char {
    if 'a' <= c <= 'z' then c - 'a' + 'A' else c
  }

  /** What is left of a code: separators dropped, letters in upper case. */
  function Clean(code: string): string {
    if code == [] then [] else
      (if IsSeparator(code[0]) then [] else [Upper(code[0])]) + Clean(code[1..])
  }

  function Letters(ds: seq<nat>): (s: string)
    requires Digits(ds)
    ensures |s| == |ds|
  {
    seq(|ds|, k requires 0 <= k < |ds| => ALPHABET[ds[k]])
  }

  /** The digits of a string over the alphabet. */
  function ReadDigits(s: string): (r: Option<seq<nat>>)
    ensures r.Some? ==> |r.value| == |s| && Digits(r.value)
  {
    if s == [] then Some([]) else
      var front := ReadDigits(s[..|s| - 1]);
      var last := Index(s[|s| - 1]);
      if front.None? || last.None? then None else Some(front.value + [last.value])
  }

  /** Only the letters themselves are read. */
  lemma {:induction false} ReadExact(s: string)
    requires ReadDigits(s).Some?
    ensures Letters(ReadDigits(s).value) == s
  {
    if s != [] {
      ReadExact(s[..|s| - 1]);
      assert s == s[..|s| - 1] + [s[|s| - 1]];
    }
  }

  lemma {:induction false} ReadLetters(ds: seq<nat>)
    requires Digits(ds)
    ensures ReadDigits(Letters(ds)) == Some(ds)
  {
    if ds != [] {
      var s := Letters(ds);
      assert s[..|s| - 1] == Letters(ds[..|ds| - 1]);
      ReadLetters(ds[..|ds| - 1]);
      IndexOfLetter(ds[|ds| - 1]);
      assert ds == ds[..|ds| - 1] + [ds[|ds| - 1]];
    }
  }

  /** One unknown character spoils the whole string. */
  lemma {:induction false} Unreadable(s: string, i: nat)
    requires i < |s| && Index(s[i]).None?
    ensures ReadDigits(s).None?
    decreases |s|
  {
    if i < |s| - 1 { Unreadable(s[..|s| - 1], i); }
  }

  lemma ReadSnoc(front: string, c: char)
    ensures ReadDigits(front + [c])
         == if ReadDigits(front).None? || Index(c).None? then None else Some(ReadDigits(front).value + [Index(c).value])
  {
    var s := front + [c];
    assert s[..|s| - 1] == front;
  }

  lemma ReadNext(s: string, i: nat, ds: seq<nat>)
    requires i < |s| && ReadDigits(s[..i]) == Some(ds)
    ensures Index(s[i]).Some? ==> ReadDigits(s[..i + 1]) == Some(ds + [Index(s[i]).value])
  {
    assert s[..i + 1] == s[..i] + [s[i]];
    ReadSnoc(s[..i], s[i]);
  }

  // ----- what the two programs compute

  function Packed(ip: nat, port: nat): nat { ip * PORTS + port }

  function EncodeSpec(ip: nat, port: nat): string {
    var s := Letters(DigitsOf(Packed(ip, port), CODE_LEN));
    s[..DASH_AT] + "-" + s[DASH_AT..]
  }

  function DecodeClean(s: string): Option<(nat, nat)> {
    if |s| != CODE_LEN then None else
      var ds := ReadDigits(s);
      if ds.None? then None else
        var value := Number(ds.value);
        if value % PORTS != PAIRING_PORT || value / PORTS >= ADDRESSES then None
        else Some((value / PORTS, PAIRING_PORT))
  }

  function DecodeSpec(code: string): Option<(nat, nat)> {
    DecodeClean(Clean(code))
  }

  /** One digit more is written, at `slot`. */
  lemma DigitStep(ds: seq<nat>, value: nat, slot: nat)
    requires slot < |ds| && Digits(ds) && ds[..slot + 1] == DigitsOf(value, slot + 1)
    ensures ds[..slot] == DigitsOf(value / BASE, slot) && ds[slot] == value % BASE
    ensures Letters(ds[slot..]) == [ALPHABET[value % BASE]] + Letters(ds[slot + 1..])
  {
    var front := DigitsOf(value / BASE, slot);
    assert DigitsOf(value, slot + 1) == front + [value % BASE];
    assert ds[..slot] == ds[..slot + 1][..slot] == front;
    assert ds[slot] == ds[..slot + 1][slot];
    assert ds[slot..] == [ds[slot]] + ds[slot + 1..];
  }

  method Encode(ip: nat, port: nat) returns (out: string)
    requires ip < ADDRESSES && port < PORTS
    ensures out == EncodeSpec(ip, port)
  {
    var value: nat := Packed(ip, port);
    ghost var ds := DigitsOf(value, CODE_LEN);
    var digits := new char[CODE_LEN](_ => ALPHABET[0]);
    var slot := CODE_LEN;
    assert ds[..CODE_LEN] == ds && ds[CODE_LEN..] == [] && Letters([]) == [];
    while slot > 0
      invariant 0 <= slot <= CODE_LEN && digits.Length == CODE_LEN
      invariant ds[..slot] == DigitsOf(value, slot)
      invariant digits[slot..] == Letters(ds[slot..])
    {
      slot := slot - 1;
      DigitStep(ds, value, slot);
      ghost var written := digits[slot + 1..];
      digits[slot] := ALPHABET[value % BASE];
      assert digits[slot..] == [digits[slot]] + written;
      value := value / BASE;
    }
    ghost var s := Letters(ds);
    assert digits[..] == s by { assert digits[..] == digits[0..] && ds[0..] == ds; }
    out := "";
    for i := 0 to CODE_LEN
      invariant digits[..] == s && out == Dashed(s, i)
    {
      DashedStep(s, i);
      assert digits[i] == digits[..][i];
      if i == DASH_AT {
        out := out + "-";
      }
      out := out + [digits[i]];
    }
    assert s[DASH_AT..CODE_LEN] == s[DASH_AT..];
  }

  /** The first `n` letters of a code, with its dash. */
  function Dashed(s: string, n: nat): string
    requires n <= |s| == CODE_LEN
  {
    if n <= DASH_AT then s[..n] else s[..DASH_AT] + "-" + s[DASH_AT..n]
  }

  lemma DashedStep(s: string, i: nat)
    requires i < |s| == CODE_LEN
    ensures Dashed(s, i + 1) == Dashed(s, i) + (if i == DASH_AT then "-" else "") + [s[i]]
  {
    if i < DASH_AT {
      assert s[..i + 1] == s[..i] + "" + [s[i]];
    } else {
      assert s[DASH_AT..i + 1] == s[DASH_AT..i] + [s[i]];
      assert s[..DASH_AT] + "-" + (s[DASH_AT..i] + [s[i]]) == s[..DASH_AT] + "-" + s[DASH_AT..i] + [s[i]];
    }
  }

  method Decode(code: string) returns (r: Option<(nat, nat)>)
    ensures r == DecodeSpec(code)
  {
    var cleaned := Clean(code);
    if |cleaned| != CODE_LEN {
      return None;
    }
    var value := 0;
    ghost var ds: seq<nat> := [];
    for i := 0 to |cleaned|
      invariant ReadDigits(cleaned[..i]) == Some(ds)
      invariant value == Number(ds) && value < Power(i)
    {
      ReadNext(cleaned, i, ds);
      var digit := Index(cleaned[i]);
      if digit.None? {
        Unreadable(cleaned, i);
        return None;
      }
      NumberSnoc(ds, digit.value);
      // the u64 accumulator cannot wrap
      StepFits(value, i, digit.value);
      ds := ds + [digit.value];
      value := value * BASE + digit.value;
    }
    WholePrefix(cleaned);
    if value % PORTS != PAIRING_PORT {
      return None;
    }
    if value / PORTS >= ADDRESSES {
      return None;
    }
    r := Some((value / PORTS, PAIRING_PORT));
  }

  lemma StepFits(value: nat, i: nat, d: nat)
    requires value < Power(i) && i < CODE_LEN && d < BASE
    ensures value * BASE + d < Power(i + 1)
    ensures value * BASE + d < 0x1_0000_0000_0000_0000
  {
    ElevenDigits();
    PowerMonotone(i + 1, CODE_LEN);
  }

  lemma {:induction false} PowerMonotone(m: nat, n: nat)
    requires m <= n
    ensures Power(m) <= Power(n)
    decreases n
  {
    if m < n { PowerMonotone(m, n - 1); }
  }

  // ----- cleaning

  lemma {:induction false} CleanAppend(a: string, b: string)
    ensures Clean(a + b) == Clean(a) + Clean(b)
  {
    if a == [] {
      assert a + b == b;
    } else {
      assert (a + b)[0] == a[0] && (a + b)[1..] == a[1..] + b;
      CleanAppend(a[1..], b);
    }
  }

  lemma CleanAround(a: string, c: char, b: string)
    ensures Clean(a + [c] + b) == Clean(a) + (if IsSeparator(c) then [] else [Upper(c)]) + Clean(b)
  {
    CleanAppend(a + [c], b);
    CleanAppend(a, [c]);
    assert [c][1..] == [];
  }

  /** Separators may be added anywhere, and any letter may be written in lower case. */
  lemma CleanIgnoresStyle(a: string, c: char, b: string)
    ensures IsSeparator(c) ==> Clean(a + [c] + b) == Clean(a + b)
    ensures 'A' <= c <= 'Z' ==> Clean(a + [c - 'A' + 'a'] + b) == Clean(a + [c] + b)
  {
    CleanAround(a, c, b);
    CleanAppend(a, b);
    assert Clean(a) + [] + Clean(b) == Clean(a) + Clean(b);
    if 'A' <= c <= 'Z' {
      CleanAround(a, c - 'A' + 'a', b);
      LowerIsPlain(c);
    }
  }

  lemma LowerIsPlain(c: char)
    requires 'A' <= c <= 'Z'
    ensures Upper(c - 'A' + 'a') == c == Upper(c) && !IsSeparator(c - 'A' + 'a') && !IsSeparator(c)
  {
  }

  /** `typed` is `code` with separators put in or left out anywhere and any letters in lower case. */
  predicate Restyled(typed: string, code: string)
    decreases |typed| + |code|
  {
    || (typed == [] && code == [])
    || (typed != [] && Separates(typed[0]) && Restyled(typed[1..], code))
    || (code != [] && Separates(code[0]) && Restyled(typed, code[1..]))
    || (typed != [] && code != [] && (typed[0] == code[0] || IsLowerOf(typed[0], code[0]))
        && Restyled(typed[1..], code[1..]))
  }

  /** White space and dashes. */
  predicate Separates(c: char) { c in " \t\n\r\U{000C}-" }

  predicate IsLowerOf(c: char, d: char) {
    'A' <= d <= 'Z' && c == d - 'A' + 'a'
  }

  predicate NoLowerCase(s: string) {
    forall i :: 0 <= i < |s| ==> Upper(s[i]) == s[i]
  }

  /** Cleaning forgets exactly the style. */
  lemma {:induction false} CleanForgetsStyle(typed: string, code: string)
    requires NoLowerCase(code)
    ensures Restyled(typed, code) <==> Clean(typed) == Clean(code)
    decreases |typed| + |code|
  {
    if typed != [] { CleanForgetsStyle(typed[1..], code); }
    if code != [] { CleanForgetsStyle(typed, code[1..]); }
    if typed != [] && code != [] {
      CleanForgetsStyle(typed[1..], code[1..]);
      SameUpper(typed[0], code[0]);
      if !IsSeparator(typed[0]) && !IsSeparator(code[0]) { CleanHeads(typed, code); }
    }
  }

  lemma SameUpper(c: char, d: char)
    requires Upper(d) == d
    ensures Upper(c) == d <==> c == d || IsLowerOf(c, d)
    ensures IsLowerOf(c, d) ==> !IsSeparator(c) && !IsSeparator(d)
  {
  }

  lemma CleanHeads(s: string, t: string)
    requires s != [] && t != [] && !IsSeparator(s[0]) && !IsSeparator(t[0])
    ensures Clean(s) == Clean(t) <==> Upper(s[0]) == Upper(t[0]) && Clean(s[1..]) == Clean(t[1..])
  {
    assert Clean(s)[0] == Upper(s[0]) && Clean(s)[1..] == Clean(s[1..]);
    assert Clean(t)[0] == Upper(t[0]) && Clean(t)[1..] == Clean(t[1..]);
  }

  lemma {:induction false} CleanLetters(ds: seq<nat>)
    requires Digits(ds)
    ensures Clean(Letters(ds)) == Letters(ds)
    decreases |ds|
  {
    if ds != [] {
      CleanLetters(ds[1..]);
      assert Letters(ds) == [ALPHABET[ds[0]]] + Letters(ds[1..]);
      LetterIsPlain(ds[0]);
    }
  }

  lemma LetterIsPlain(d: nat)
    requires d < BASE
    ensures !IsSeparator(ALPHABET[d]) && Upper(ALPHABET[d]) == ALPHABET[d]
  {
  }

  lemma PackedFits(ip: nat, port: nat)
    requires ip < ADDRESSES && port < PORTS
    ensures Packed(ip, port) < Power(CODE_LEN)
    ensures Packed(ip, port) % PORTS == port && Packed(ip, port) / PORTS == ip
  {
    ElevenDigits();
  }

  /** The digits a cleaned code is read as. */
  lemma ReadBack(ip: nat, port: nat)
    requires ip < ADDRESSES && port < PORTS
    ensures var s := Clean(EncodeSpec(ip, port));
      |s| == CODE_LEN && ReadDigits(s).Some? && Number(ReadDigits(s).value) == Packed(ip, port)
  {
    var ds := DigitsOf(Packed(ip, port), CODE_LEN);
    PackedFits(ip, port);
    CleanEncode(ip, port);
    NumberOfDigits(Packed(ip, port), CODE_LEN);
    ReadLetters(ds);
  }

  lemma CleanEncode(ip: nat, port: nat)
    ensures Clean(EncodeSpec(ip, port)) == Letters(DigitsOf(Packed(ip, port), CODE_LEN))
  {
    var ds := DigitsOf(Packed(ip, port), CODE_LEN);
    var s := Letters(ds);
    var a, b := s[..DASH_AT], s[DASH_AT..];
    CleanIgnoresStyle(a, '-', b);
    assert a + b == s;
    CleanLetters(ds);
  }

  // ----- bijection

  /** Every address comes back, however the code is spaced, dashed or cased. */
  lemma DecodeEncode(ip: nat, typed: string)
    requires ip < 0x1_0000_0000 && Restyled(typed, EncodeSpec(ip, 42100))
    ensures DecodeSpec(typed) == Some((ip, 42100))
  {
    CodeIsUpper(ip, PAIRING_PORT);
    CleanForgetsStyle(typed, EncodeSpec(ip, PAIRING_PORT));
    ReadBack(ip, PAIRING_PORT);
    PackedFits(ip, PAIRING_PORT);
  }

  lemma CodeIsUpper(ip: nat, port: nat)
    ensures NoLowerCase(EncodeSpec(ip, port))
  {
    var ds, code := DigitsOf(Packed(ip, port), CODE_LEN), EncodeSpec(ip, port);
    forall i | 0 <= i < |code| ensures Upper(code[i]) == code[i] {
      if i != DASH_AT { LetterIsPlain(ds[if i < DASH_AT then i else i - 1]); }
    }
  }

  /** An accepted code is, up to style, the one code of the address it names. */
  lemma EncodeDecode(code: string)
    requires DecodeSpec(code).Some?
    ensures var (ip, port) := DecodeSpec(code).value;
      ip < 0x1_0000_0000 && port == 42100 && Restyled(code, EncodeSpec(ip, 42100))
  {
    var ds := ReadDigits(Clean(code)).value;
    var (ip, port) := DecodeSpec(code).value;
    assert Number(ds) == Packed(ip, port);
    ReadExact(Clean(code));
    DigitsOfNumber(ds);
    CleanEncode(ip, port);
    CodeIsUpper(ip, port);
    CleanForgetsStyle(code, EncodeSpec(ip, port));
  }

  /** A code for any other port is refused. */
  lemma OtherPortRefused(ip: nat, port: nat)
    requires ip < 0x1_0000_0000 && port < 0x1_0000 && port != 42100
    ensures DecodeSpec(EncodeSpec(ip, port)) == None
  {
    ReadBack(ip, port);
    PackedFits(ip, port);
  }

  // ----- the code, spelled out

  /** Eleven digits to the base 25, as one number. */
  function Horner(d: seq<nat>): nat
    requires |d| == 11
  {
    ((((((((((d[0] * 25 + d[1]) * 25 + d[2]) * 25 + d[3]) * 25 + d[4]) * 25 + d[5]) * 25 + d[6]) * 25 + d[7]) * 25
       + d[8]) * 25 + d[9]) * 25 + d[10])
  }

  function NumberTo(d: seq<nat>, n: nat): nat
    requires n <= |d|
  {
    if n == 0 then 0 else NumberTo(d, n - 1) * 25 + d[n - 1]
  }

  lemma {:induction false} NumberPrefix(d: seq<nat>, n: nat)
    requires n <= |d|
    ensures NumberTo(d, n) == Number(d[..n])
  {
    if n > 0 {
      NumberPrefix(d, n - 1);
      assert d[..n][..n - 1] == d[..n - 1];
    }
  }

  lemma HornerFront(d: seq<nat>)
    requires |d| == 11
    ensures NumberTo(d, 5) == (((d[0] * 25 + d[1]) * 25 + d[2]) * 25 + d[3]) * 25 + d[4]
  {
    assert NumberTo(d, 1) == d[0];
    assert NumberTo(d, 3) == (d[0] * 25 + d[1]) * 25 + d[2];
  }

  lemma HornerBack(d: seq<nat>, v: nat)
    requires |d| == 11 && v == NumberTo(d, 5)
    ensures NumberTo(d, 11) == (((((v * 25 + d[5]) * 25 + d[6]) * 25 + d[7]) * 25 + d[8]) * 25 + d[9]) * 25 + d[10]
  {
    assert NumberTo(d, 7) == (v * 25 + d[5]) * 25 + d[6];
    assert NumberTo(d, 9) == (((v * 25 + d[5]) * 25 + d[6]) * 25 + d[7]) * 25 + d[8];
  }

  lemma HornerIsNumber(d: seq<nat>)
    requires |d| == 11
    ensures Number(d) == Horner(d)
  {
    HornerFront(d);
    HornerBack(d, NumberTo(d, 5));
    NumberPrefix(d, 11);
    WholePrefix(d);
  }

  /** The code of an address and a port: the eleven base-25 digits of the address times 2^16 plus the port,
      most significant first, in these letters, with a dash after the fifth. There is one for every pair. */
  lemma CodeSpelled(ip: nat, port: nat) returns (d: seq<nat>)
    requires ip < 0x1_0000_0000 && port < 0x1_0000
    ensures |d| == 11 && (forall k :: 0 <= k < 11 ==> d[k] < 25) && Horner(d) == ip * 0x1_0000 + port
    ensures var l := "ACDEFGHJKLMNPQRTUVWXY3479";
      EncodeSpec(ip, port)
      == [l[d[0]], l[d[1]], l[d[2]], l[d[3]], l[d[4]], '-', l[d[5]], l[d[6]], l[d[7]], l[d[8]], l[d[9]], l[d[10]]]
  {
    d := DigitsOf(Packed(ip, port), CODE_LEN);
    PackedFits(ip, port);
    NumberOfDigits(Packed(ip, port), CODE_LEN);
    HornerIsNumber(d);
    CodeLetters(d);
  }

  lemma CodeLetters(d: seq<nat>)
    requires |d| == 11 && Digits(d)
    ensures var l, s := "ACDEFGHJKLMNPQRTUVWXY3479", Letters(d);
      s[..DASH_AT] + "-" + s[DASH_AT..]
      == [l[d[0]], l[d[1]], l[d[2]], l[d[3]], l[d[4]], '-', l[d[5]], l[d[6]], l[d[7]], l[d[8]], l[d[9]], l[d[10]]]
  {
  }

  // ----- the fixed port detects errors

  /** Multiplying by a number that is invertible modulo 2^16 hides no difference. */
  lemma OddCancel(x: int, o: int, inverse: int, w: int)
    requires o * inverse == 1 + PORTS * w && (o * x) % PORTS == 0
    ensures x % PORTS == 0
  {
    var q := (o * x) / PORTS;
    assert (o * inverse) * x == inverse * (o * x);
    assert (1 + PORTS * w) * x == x + PORTS * (w * x);
    assert inverse * (PORTS * q) == PORTS * (inverse * q);
    assert x == PORTS * (inverse * q - w * x);
  }

  lemma OddFactor(x: int)
    requires (25 * x) % PORTS == 0
    ensures x % PORTS == 0
  {
    OddCancel(x, 25, 23593, 9);
  }

  lemma {:induction false} ScaledFactor(x: int, k: nat)
    requires Scaled(x, k) % PORTS == 0
    ensures x % PORTS == 0
  {
    if k > 0 {
      OddFactor(Scaled(x, k - 1));
      ScaledFactor(x, k - 1);
    }
  }

  lemma SamePortMeansMultiple(v: int, w: int)
    ensures v % PORTS == w % PORTS <==> (w - v) % PORTS == 0
  {
  }

  /** Replacing a middle piece moves the number by the scaled difference of the pieces. */
  lemma MiddleDifference(x: seq<nat>, m: seq<nat>, m': seq<nat>, y: seq<nat>)
    requires |m| == |m'|
    ensures Number(x + m' + y) as int - Number(x + m + y) == Scaled(Number(m') as int - Number(m), |y|)
  {
    NumberAppend(x + m, y);
    NumberAppend(x + m', y);
    ScaledAdd(Number(x + m'), Number(x + m), |y|);
    HeadDifference(x, m, m');
  }

  lemma HeadDifference(x: seq<nat>, m: seq<nat>, m': seq<nat>)
    requires |m| == |m'|
    ensures Number(x + m') as int - Number(x + m) == Number(m') as int - Number(m)
  {
    NumberAppend(x, m);
    NumberAppend(x, m');
  }

  /** The port changes when a middle piece changes by something that is not 0 modulo 2^16. */
  lemma MiddleChangesPort(x: seq<nat>, m: seq<nat>, m': seq<nat>, y: seq<nat>)
    requires |m| == |m'| && (Number(m') as int - Number(m)) % PORTS != 0
    ensures Number(x + m + y) % PORTS != Number(x + m' + y) % PORTS
  {
    MiddleDifference(x, m, m', y);
    SamePortMeansMultiple(Number(x + m + y), Number(x + m' + y));
    var d := Number(m') as int - Number(m);
    if Scaled(d, |y|) % PORTS == 0 { ScaledFactor(d, |y|); }
  }

  lemma SmallNotMultiple(d: int)
    requires d != 0 && -PORTS < d < PORTS
    ensures d % PORTS != 0
  {
  }

  /** A change inside three adjacent digits is smaller than 2^16. */
  lemma WindowDifference(m: seq<nat>, m': seq<nat>)
    requires Digits(m) && Digits(m') && |m| == |m'| <= 3 && m != m'
    ensures (Number(m') as int - Number(m)) % PORTS != 0
  {
    DigitsOfNumber(m);
    DigitsOfNumber(m');
    PowerMonotone(|m|, 3);
    assert Power(3) == 15625;
    SmallNotMultiple(Number(m') as int - Number(m));
  }

  /** 25^k - 1 as a power of two times an odd number. */
  function TwoPart(k: nat): int
    requires 1 <= k <= 10
  {
    [8, 16, 8, 32, 8, 16, 8, 64, 8, 16][k - 1]
  }

  function OddPart(k: nat): int
    requires 1 <= k <= 10
  {
    [3, 39, 1953, 12207, 1220703, 15258789, 762939453, 2384185791, 476837158203, 5960464477539][k - 1]
  }

  lemma Split(d: int, k: nat)
    requires 1 <= k <= 10
    ensures Scaled(d, k) - d == OddPart(k) * (TwoPart(k) * d)
  {
    assert Scaled(d, 1) == 25 * d;
    assert Scaled(d, 2) == 625 * d;
    assert Scaled(d, 3) == 15625 * d;
    assert Scaled(d, 4) == 390625 * d;
    assert Scaled(d, 5) == 9765625 * d;
    assert Scaled(d, 6) == 244140625 * d;
    assert Scaled(d, 7) == 6103515625 * d;
    assert Scaled(d, 8) == 152587890625 * d;
    assert Scaled(d, 9) == 3814697265625 * d;
    assert Scaled(d, 10) == 95367431640625 * d;
  }

  /** The odd part has an inverse modulo 2^16. */
  lemma OddInverse(k: nat) returns (inverse: int, w: int)
    requires 1 <= k <= 10
    ensures OddPart(k) * inverse == 1 + PORTS * w
  {
    inverse := [43691, 28567, 40033, 34639, 48031, 62253, 20245, 9791, 13299, 48203][k - 1];
    w := [2, 17, 1193, 6452, 894647, 14494406, 235682819, 356194505, 96762960311, 4384037310956][k - 1];
  }

  /** 25^k - 1 has at most six factors of two for k up to 10, and a digit difference at most four. */
  lemma SwapFactor(d: int, k: nat)
    requires 1 <= k <= 10 && -25 < d < 25 && d != 0
    ensures (Scaled(d, k) - d) % PORTS != 0
  {
    Split(d, k);
    var x := TwoPart(k) * d;
    var inverse, w := OddInverse(k);
    if (OddPart(k) * x) % PORTS == 0 {
      OddCancel(x, OddPart(k), inverse, w);
    }
  }

  lemma NotMultiple(x: int, d: int, k: nat)
    requires 1 <= k <= 10 && -25 < d < 25 && d != 0 && x == Scaled(d, k) - d
    ensures x % PORTS != 0
  {
    SwapFactor(d, k);
  }

  lemma FlankedValue(a: nat, m: seq<nat>, b: nat)
    ensures Number([a] + m + [b]) == (Scaled(a, |m|) + Number(m)) * 25 + b
  {
    NumberAppend([a] + m, [b]);
    NumberAppend([a], m);
    assert Number([a]) == a && Number([b]) == b by { assert [a][..0] == [] && [b][..0] == []; }
    assert Scaled(Number([a] + m), 1) == 25 * Number([a] + m);
  }

  /** Exchanging two digits is a change by a multiple of 25^k - 1. */
  lemma SwapValue(a: nat, m: seq<nat>, b: nat)
    ensures Number([b] + m + [a]) as int - Number([a] + m + [b]) == Scaled(b - a, |m| + 1) - (b - a)
  {
    FlankedValue(a, m, b);
    FlankedValue(b, m, a);
    ScaledAdd(b, a, |m|);
  }

  lemma SwapDifference(a: nat, m: seq<nat>, b: nat, x: int)
    requires a < BASE && b < BASE && a != b && |m| < 10
    requires x == Number([b] + m + [a]) as int - Number([a] + m + [b])
    ensures x % PORTS != 0
  {
    SwapValue(a, m, b);
    NotMultiple(x, b - a, |m| + 1);
  }

  lemma SwapChangesPort(x: seq<nat>, a: nat, m: seq<nat>, b: nat, y: seq<nat>)
    requires a < BASE && b < BASE && a != b && |m| < 10
    ensures Number(x + ([a] + m + [b]) + y) % PORTS != Number(x + ([b] + m + [a]) + y) % PORTS
  {
    var p, q := [a] + m + [b], [b] + m + [a];
    SwapDifference(a, m, b, Number(q) as int - Number(p));
    MiddleChangesPort(x, p, q, y);
  }

  /** Two cleaned codes that differ only inside `[from, from + 3)`. */
  predicate DifferWithin(s: string, t: string, from: nat) {
    && |s| == |t| && from + 3 <= |s| && s != t
    && s[..from] == t[..from] && s[from + 3..] == t[from + 3..]
  }

  lemma SameOutside(s: string, t: string, from: nat, k: nat)
    requires DifferWithin(s, t, from) && k < |s| && (k < from || from + 3 <= k)
    ensures s[k] == t[k]
  {
    if k < from { assert s[k] == s[..from][k] == t[..from][k]; }
    else { assert s[k] == s[from + 3..][k - from - 3] == t[from + 3..][k - from - 3]; }
  }

  /** Every burst of up to three adjacent wrong characters in a valid code is refused. */
  lemma BurstRefused(code: string, wrong: string, from: nat)
    requires DecodeSpec(code).Some? && DifferWithin(Clean(code), Clean(wrong), from)
    ensures DecodeSpec(wrong) == None
  {
    var s, t := Clean(code), Clean(wrong);
    if ReadDigits(t).Some? {
      var ds, es := ReadDigits(s).value, ReadDigits(t).value;
      ReadExact(s);
      ReadExact(t);
      forall k | 0 <= k < |s| && (k < from || from + 3 <= k) ensures ds[k] == es[k] {
        SameOutside(s, t, from, k);
        SameLetter(s, ds, t, es, k);
      }
      OutsideIsSame(ds, es, from, from + 3);
      WindowChangesPort(ds, es, from);
    }
  }

  lemma OutsideIsSame(ds: seq<nat>, es: seq<nat>, from: nat, to: nat)
    requires |ds| == |es| && from <= to <= |ds|
    requires forall k :: 0 <= k < |ds| && (k < from || to <= k) ==> ds[k] == es[k]
    ensures ds[..from] == es[..from] && ds[to..] == es[to..]
  {
  }

  lemma WindowChangesPort(ds: seq<nat>, es: seq<nat>, from: nat)
    requires Digits(ds) && Digits(es) && |ds| == |es| && from + 3 <= |ds| && ds != es
    requires ds[..from] == es[..from] && ds[from + 3..] == es[from + 3..]
    ensures Number(ds) % PORTS != Number(es) % PORTS
  {
    var x, m, m', y := ds[..from], ds[from..from + 3], es[from..from + 3], ds[from + 3..];
    assert ds == x + m + y by { ThreePieces(ds, from, from + 3); }
    assert es == x + m' + y by { ThreePieces(es, from, from + 3); }
    WindowDifference(m, m');
    MiddleChangesPort(x, m, m', y);
  }

  lemma SameLetter(s: string, ds: seq<nat>, t: string, es: seq<nat>, k: nat)
    requires Digits(ds) && Digits(es) && Letters(ds) == s && Letters(es) == t && k < |s| && k < |t|
    ensures s[k] == t[k] <==> ds[k] == es[k]
  {
    IndexOfLetter(ds[k]);
    IndexOfLetter(es[k]);
  }

  lemma DifferentLetters(s: string, ds: seq<nat>, i: nat, j: nat)
    requires Digits(ds) && Letters(ds) == s && i < |s| && j < |s| && s[i] != s[j]
    ensures ds[i] != ds[j]
  {
  }

  function Swapped(k: nat, i: nat, j: nat): nat {
    if k == i then j else if k == j then i else k
  }

  lemma SwappedDigits(ds: seq<nat>, es: seq<nat>, i: nat, j: nat)
    requires |ds| == |es| && i < j < |ds| && Digits(ds) && Digits(es)
    requires Letters(es) == Letters(ds)[i := Letters(ds)[j]][j := Letters(ds)[i]]
    ensures es == ds[..i] + ([ds[j]] + ds[i + 1..j] + [ds[i]]) + ds[j + 1..]
  {
    forall k | 0 <= k < |ds| ensures es[k] == ds[Swapped(k, i, j)] {
      assert Letters(es)[k] == Letters(ds)[Swapped(k, i, j)];
      IndexOfLetter(es[k]);
      IndexOfLetter(ds[Swapped(k, i, j)]);
    }
  }

  /** Exchanging any two different characters of a valid code is refused. */
  lemma SwapRefused(code: string, wrong: string, i: nat, j: nat)
    requires DecodeSpec(code).Some? && i < j < CODE_LEN && |Clean(code)| == CODE_LEN
    requires Clean(code)[i] != Clean(code)[j]
    requires Clean(wrong) == Clean(code)[i := Clean(code)[j]][j := Clean(code)[i]]
    ensures DecodeSpec(wrong) == None
  {
    var s, t := Clean(code), Clean(wrong);
    if ReadDigits(t).Some? {
      var ds, es := ReadDigits(s).value, ReadDigits(t).value;
      ReadExact(s);
      ReadExact(t);
      SwappedDigits(ds, es, i, j);
      DifferentLetters(s, ds, i, j);
      SwapChangesPort(ds[..i], ds[i], ds[i + 1..j], ds[j], ds[j + 1..]);
      AroundTwo(ds, i, j);
    }
  }
}
