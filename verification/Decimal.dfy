/** Decimal printing and parsing of the 768-bit runtime, and their round trip. */
module Decimal {
  import opened Limbs
  import opened Shifts
  import opened BitSerial
  import opened Magnitude
  import opened SailInt

  //////////////////////////////////////////////////////////////////////////////
  // Decimal text
  //////////////////////////////////////////////////////////////////////////////

  function DigitChar(d: nat): (c: char)
    requires d < 10
    ensures IsDigit(c) && DigitOf(c) == d
  {
    (48 + d) as char
  }

  predicate IsDigit(c: char) {
    '0' <= c <= '9'
  }

  function DigitOf(c: char): (d: nat)
    requires IsDigit(c)
    ensures d < 10
  {
    c as int - 48
  }

  ghost predicate AllDigits(s: string) {
    forall k :: 0 <= k < |s| ==> IsDigit(s[k])
  }

  /** The number a digit string denotes. */
  ghost function Digits(s: string): nat
    requires AllDigits(s)
  {
    if s == "" then 0 else 10 * Digits(s[..|s| - 1]) + DigitOf(s[|s| - 1])
  }

  /** The digits of ASCII. */
  lemma DigitValue(c: char)
    ensures IsDigit(c) <==> '0' <= c <= '9'
    ensures IsDigit(c) ==> DigitOf(c) == c as int - '0' as int && DigitChar(DigitOf(c)) == c
  {
  }

  /** One digit more is ten times the number and the digit. */
  lemma DigitsSnoc(s: string, c: char)
    requires AllDigits(s) && '0' <= c <= '9'
    ensures AllDigits(s + [c]) && Digits(s + [c]) == 10 * Digits(s) + (c as int - '0' as int) && Digits("") == 0
  {
    assert (s + [c])[..|s|] == s;
  }

  /** The decimal text of a natural number, without leading zeros. */
  ghost function Text(n: nat): (s: string)
    ensures s != "" && AllDigits(s) && Digits(s) == n
    ensures n != 0 ==> s[0] != '0'
  {
    if n < 10 then
      assert [DigitChar(n)][..0] == "";
      [DigitChar(n)]
    else
      var s := Text(n / 10) + [DigitChar(n % 10)];
      assert s[..|s| - 1] == Text(n / 10);
      s
  }

  ghost function SignedText(x: int): string {
    if x < 0 then "-" + Text(-x) else Text(x)
  }

  /** A minus sign exactly for negative numbers, then only digits, of which the first is no zero unless it is alone. */
  lemma SignedTextForm(x: int)
    ensures var s := SignedText(x); var start := if x < 0 then 1 else 0;
            && |s| > start && (x < 0 ==> s[0] == '-')
            && (forall k :: start <= k < |s| ==> '0' <= s[k] <= '9')
            && (s[start] == '0' ==> x == 0 && s == "0")
  {
    if x < 0 {
      assert forall k :: 1 <= k < |SignedText(x)| ==> SignedText(x)[k] == Text(-x)[k - 1];
    }
    if x == 0 { assert Text(0) == "0"; }
  }

  /** The digits of n that are still to come when n has been divided down; nothing for zero. */
  ghost function Pending(n: nat): string {
    if n == 0 then "" else Text(n)
  }

  ghost function Reversed(s: seq<char>): (t: seq<char>)
    ensures |t| == |s| && forall k :: 0 <= k < |s| ==> t[k] == s[|s| - 1 - k]
  {
    seq(|s|, k requires 0 <= k < |s| => s[|s| - 1 - k])
  }

  function Pow10(k: nat): (p: int)
    ensures 1 <= p
  {
    if k == 0 then 1 else 10 * Pow10(k - 1)
  }

  lemma {:induction false} Pow10Add(i: nat, k: nat)
    ensures Pow10(i + k) == Pow10(i) * Pow10(k)
  {
    if i > 0 {
      Pow10Add(i - 1, k);
      assert 10 * (Pow10(i - 1) * Pow10(k)) == (10 * Pow10(i - 1)) * Pow10(k);
    }
  }

  lemma {:induction false} Pow10Mono(i: nat, k: nat)
    requires i <= k
    ensures Pow10(i) <= Pow10(k)
  {
    if i < k { Pow10Mono(i, k - 1); }
  }

  /** ceil(log10(2^768)): the longest decimal text of a magnitude. The condition always holds, as in LIMBS. */
  const MAX_DIGITS: nat := if B > 0xFFFF_FFFF then 232 else 464

  /** 2^768 < 10^232, by squaring 2^96 < 10^29 three times. */
  lemma DigitsFit()
    ensures BPow(LIMBS) < Pow10(MAX_DIGITS)
  {
    SmallPowers();
    BPowIsPow2(LIMBS);
    SquareThrice(96, 29, 64 * LIMBS, MAX_DIGITS);
  }

  lemma SquareThrice(i: nat, k: nat, i': nat, k': nat)
    requires Pow2(i) < Pow10(k) && i' == 8 * i && k' == 8 * k
    ensures Pow2(i') < Pow10(k')
  {
    var i2: nat, k2: nat, i4: nat, k4: nat := 2 * i, 2 * k, 4 * i, 4 * k;
    SquareBoth(i, k, i2, k2);
    SquareBoth(i2, k2, i4, k4);
    SquareBoth(i4, k4, i', k');
  }

  lemma SmallPowers()
    ensures Pow2(96) < Pow10(29)
  {
    LimbBase();
    TwoTo32();
    Pow2Add(64, 32);
    TenTo29();
  }

  lemma TwoTo32()
    ensures Pow2(32) == 0x1_0000_0000
  {
    assert Pow2(4) == 16;
    Pow2Add(4, 4);
    Pow2Add(8, 8);
    Pow2Add(16, 16);
  }

  lemma TenTo29()
    ensures Pow10(29) == 100000000000000000000000000000
  {
    assert Pow10(3) == 1000;
    Pow10Add(3, 3);
    Pow10Add(6, 6);
    Pow10Add(12, 12);
    Pow10Add(24, 3);
    Pow10Add(27, 2);
  }

  lemma SquareBoth(i: nat, k: nat, i2: nat, k2: nat)
    requires Pow2(i) < Pow10(k) && i2 == 2 * i && k2 == 2 * k
    ensures Pow2(i2) < Pow10(k2)
  {
    Pow2Add(i, i);
    Pow10Add(k, k);
    SquareAlgebra(Pow2(i), Pow10(k));
  }

  lemma SquareAlgebra(a: int, b: int)
    requires 0 < a < b
    ensures a * a < b * b
  {
    MulMono(a, b, a);
    MulMono(a + 1, b, b);
  }

  //////////////////////////////////////////////////////////////////////////////
  // dec_str
  //////////////////////////////////////////////////////////////////////////////

  /** Divides the magnitude by ten in place, most significant limb first. */
  method DivideByTen(magnitude: array<Limb>, limbs: nat) returns (remainder: Limb)
    requires limbs <= magnitude.Length
    modifies magnitude
    ensures remainder < 10 && Val(old(magnitude[..limbs])) == 10 * Val(magnitude[..limbs]) + remainder
  {
    ghost var was := magnitude[..];
    remainder := 0;
    assert was[limbs..limbs] == [] && magnitude[limbs..limbs] == [];
    for i := limbs downto 0
      invariant remainder < 10 && magnitude[..i] == was[..i]
      invariant Val(was[i..limbs]) == Val(magnitude[i..limbs]) * 10 + remainder
    {
      ghost var above, before := magnitude[i + 1..limbs], remainder;
      assert magnitude[i] == magnitude[..i + 1][i] == was[i];
      LimbQuotient(remainder, magnitude[i], 10);
      var dividend := remainder * B + magnitude[i];
      magnitude[i] := dividend / 10;
      remainder := dividend % 10;
      assert magnitude[i..limbs] == [magnitude[i]] + above;
      PrependTen(was[i..limbs], above, magnitude[i], before, remainder);
    }
    assert was[0..limbs] == was[..limbs] && magnitude[0..limbs] == magnitude[..limbs];
  }

  lemma PrependTen(u: seq<Limb>, above: seq<Limb>, digit: Limb, before: Limb, remainder: Limb)
    requires u != [] && Val(u[1..]) == Val(above) * 10 + before
    requires before * B + u[0] == digit * 10 + remainder
    ensures Val(u) == Val([digit] + above) * 10 + remainder
  {
    assert ([digit] + above)[1..] == above;
    ValCons(u);
    ValCons([digit] + above);
  }

  /** The last digit of a number and the digits before it; a one-digit number has none before. */
  lemma TextStep(v: nat, left: nat, digit: nat)
    requires v == 10 * left + digit && digit < 10
    ensures Text(v) == Pending(left) + [DigitChar(digit)]
  {
  }

  lemma ReverseSnoc(s: seq<char>, c: char)
    ensures Reversed(s + [c]) == [c] + Reversed(s)
  {
  }

  lemma ConcatAssociates(a: seq<char>, c: char, b: seq<char>)
    ensures (a + [c]) + b == a + ([c] + b)
  {
  }

  /** The printing state: what is left of the number, then the printed digits in reverse. */
  ghost predicate Printing(n: nat, v: nat, printed: seq<char>) {
    && Spelled(Text(n), if printed == [] then Text(v) else Pending(v), printed)
    && Shrunk(n, v, |printed|)
  }

  ghost predicate Spelled(text: string, ahead: string, printed: seq<char>) {
    text == ahead + Reversed(printed)
  }

  ghost predicate Shrunk(n: nat, v: nat, digits: nat) {
    v * Pow10(digits) <= n
  }

  /** One printed digit moves from the number to the text. */
  lemma PrintDigit(n: nat, v: nat, printed: seq<char>, left: nat, digit: nat)
    requires Printing(n, v, printed) && (v != 0 || printed == [])
    requires v == 10 * left + digit && digit < 10
    ensures Printing(n, left, printed + [DigitChar(digit)])
  {
    TextStep(v, left, digit);
    SpellDigit(Text(n), Pending(left), printed, DigitChar(digit));
    ShrinkDigit(n, v, |printed|, left);
  }

  lemma SpellDigit(text: string, ahead: string, printed: seq<char>, c: char)
    requires Spelled(text, ahead + [c], printed)
    ensures Spelled(text, ahead, printed + [c])
  {
    ReverseSnoc(printed, c);
    ConcatAssociates(ahead, c, Reversed(printed));
  }

  lemma ShrinkDigit(n: nat, v: nat, digits: nat, left: nat)
    requires Shrunk(n, v, digits) && 10 * left <= v
    ensures Shrunk(n, left, digits + 1)
  {
    TenthFits(v, left, Pow10(digits), Pow10(digits + 1), n);
  }

  lemma TenthFits(v: int, tenth: int, p: int, p': int, size: int)
    requires p' == 10 * p && 0 < p && 10 * tenth <= v && v * p <= size
    ensures tenth * p' <= size
  {
    MulMono(10 * tenth, v, p);
    assert tenth * p' == (10 * tenth) * p;
  }

  lemma RoomLeft(n: nat, v: nat, printed: seq<char>)
    requires Printing(n, v, printed) && v != 0 && n < Pow10(MAX_DIGITS)
    ensures |printed| < MAX_DIGITS
  {
    MulMono(1, v, Pow10(|printed|));
    if MAX_DIGITS <= |printed| { Pow10Mono(MAX_DIGITS, |printed|); }
  }

  lemma PrintingStart(n: nat)
    ensures Printing(n, n, [])
  {
    assert Reversed([]) == [];
  }

  lemma PrintingEnd(n: nat, printed: seq<char>)
    requires Printing(n, 0, printed) && printed != []
    ensures Text(n) == Reversed(printed)
  {
    assert Pending(0) + Reversed(printed) == Reversed(printed);
  }

  /** One round of the digit loop: divide by ten, trim, store the digit. */
  method PrintOne(ghost n: nat, ghost printed: seq<char>, magnitude: array<Limb>, limbs: nat, reversed: array<char>, length: nat)
    returns (left: nat, ghost remainder: nat)
    requires limbs <= magnitude.Length && length == |printed| < reversed.Length && reversed[..length] == printed
    requires limbs > 0 ==> magnitude[limbs - 1] != 0
    requires limbs > 0 || printed == []
    requires Printing(n, Val(magnitude[..limbs]), printed) && n < Pow10(MAX_DIGITS)
    modifies magnitude, reversed
    ensures remainder < 10 && left <= limbs && (left > 0 ==> magnitude[left - 1] != 0)
    ensures reversed[..length + 1] == printed + [DigitChar(remainder)]
    ensures Printing(n, Val(magnitude[..left]), printed + [DigitChar(remainder)])
    ensures left > 0 ==> length + 1 < MAX_DIGITS
  {
    ghost var v := Val(magnitude[..limbs]);
    NonzeroTop(magnitude[..limbs]);
    var digit := DivideByTen(magnitude, limbs);
    left := LimbsUsed(magnitude, limbs);
    reversed[length] := DigitChar(digit);
    remainder := digit;
    assert reversed[..length + 1] == reversed[..length] + [reversed[length]];
    PrintDigit(n, v, printed, Val(magnitude[..left]), digit);
    NonzeroTop(magnitude[..left]);
    if left > 0 { RoomLeft(n, Val(magnitude[..left]), printed + [DigitChar(digit)]); }
  }

  lemma NonzeroTop(s: seq<Limb>)
    requires s != [] ==> s[|s| - 1] != 0
    ensures s != [] <==> Val(s) != 0
  {
    if s != [] { ValTop(s); }
  }

  /** The digit loop of dec_str into its 234-character buffer: at most 232 digits come out. */
  method PrintLoop(ghost n: nat, magnitude: array<Limb>, count: nat, reversed: array<char>) returns (length: nat)
    requires count <= magnitude.Length && reversed.Length == MAX_DIGITS + 2
    requires count > 0 ==> magnitude[count - 1] != 0
    requires n == Val(magnitude[..count]) < Pow10(MAX_DIGITS)
    modifies magnitude, reversed
    ensures 0 < length <= MAX_DIGITS && Text(n) == Reversed(reversed[..length])
  {
    ghost var printed: seq<char> := [];
    PrintingStart(n);
    length := 0;
    var limbs: nat := count;
    var more := true;
    while more
      invariant limbs <= magnitude.Length && length == |printed| <= MAX_DIGITS && reversed[..length] == printed
      invariant more ==> length < MAX_DIGITS
      invariant more <==> length == 0 || limbs != 0
      invariant limbs > 0 ==> magnitude[limbs - 1] != 0
      invariant Printing(n, Val(magnitude[..limbs]), printed)
      decreases more, MAX_DIGITS - length
    {
      ghost var remainder;
      limbs, remainder := PrintOne(n, printed, magnitude, limbs, reversed, length);
      printed := printed + [DigitChar(remainder)];
      length := length + 1;
      more := limbs != 0;
    }
    assert magnitude[..limbs] == [];
    PrintingEnd(n, printed);
  }

  method PrintDigits(n: Int, reversed: array<char>) returns (length: nat)
    requires n.Valid() && reversed.Length == MAX_DIGITS + 2
    modifies reversed
    ensures 0 < length <= MAX_DIGITS && Text(n.Size()) == Reversed(reversed[..length])
  {
    ValidFacts(n);
    DigitsFit();
    var magnitude := new Limb[LIMBS](_ => 0);
    CopyPrefix(n.limbs, n.length, magnitude);
    assert n.length > 0 ==> magnitude[n.length - 1] == magnitude[..n.length][n.length - 1];
    length := PrintLoop(n.Size(), magnitude, n.length, reversed);
  }

  /** The copying loop of dec_str. */
  method ReverseOut(reversed: array<char>, length: nat) returns (str: array<char>)
    requires length <= reversed.Length
    ensures fresh(str) && str.Length == length + 1 && str[length] == '\0'
    ensures str[..length] == Reversed(reversed[..length])
  {
    str := new char[length + 1](_ => ' ');
    for i := 0 to length
      modifies str
      invariant forall k :: 0 <= k < i ==> str[k] == reversed[length - k - 1]
    {
      str[i] := reversed[length - i - 1];
    }
    str[length] := '\0';
  }

  /** dec_str: the signed decimal text, NUL-terminated. */
  method DecStr(n: Int) returns (str: array<char>)
    requires n.Valid()
    ensures fresh(str) && str.Length > 0 && str[str.Length - 1] == '\0'
    ensures str[..str.Length - 1] == SignedText(n.Value())
  {
    ValidFacts(n);
    var reversed := new char[MAX_DIGITS + 2](_ => ' ');
    var length := PrintDigits(n, reversed);
    if n.negative {
      ghost var digits := reversed[..length];
      reversed[length] := '-';
      length := length + 1;
      assert reversed[..length] == digits + ['-'];
      ReverseSnoc(digits, '-');
    }
    str := ReverseOut(reversed, length);
  }

  //////////////////////////////////////////////////////////////////////////////
  // mpz_set_str
  //////////////////////////////////////////////////////////////////////////////

  predicate IsSpace(c: char) {
    c == ' ' || c == '\t' || c == '\n'
  }

  predicate IsSign(c: char) {
    c == '-' || c == '+'
  }

  /** Where the text after leading white space starts. */
  function AfterSpace(s: string, i: nat): (k: nat)
    requires i <= |s|
    ensures i <= k <= |s| && (k < |s| ==> !IsSpace(s[k]))
    decreases |s| - i
  {
    if i < |s| && IsSpace(s[i]) then AfterSpace(s, i + 1) else i
  }

  /** Where the text after an optional sign starts. */
  function AfterSign(s: string, i: nat): nat
    requires i <= |s|
  {
    if i < |s| && IsSign(s[i]) then i + 1 else i
  }

  /** Where the run of digits from `i` on ends. */
  function AfterDigits(s: string, i: nat): (k: nat)
    requires i <= |s|
    ensures i <= k <= |s| && (k < |s| ==> !IsDigit(s[k]))
    ensures forall j :: i <= j < k ==> IsDigit(s[j])
    decreases |s| - i
  {
    if i < |s| && IsDigit(s[i]) then AfterDigits(s, i + 1) else i
  }

  /** The digits the parser reads, and the sign before them. */
  ghost function DigitRun(s: string): (run: string)
    ensures AllDigits(run)
  {
    var start := AfterSign(s, AfterSpace(s, 0));
    s[start..AfterDigits(s, start)]
  }

  ghost function HasMinus(s: string): bool {
    var k := AfterSpace(s, 0);
    k < |s| && s[k] == '-'
  }

  /** The whole text is white space, sign and at least one digit. */
  ghost predicate IsNumber(s: string) {
    var start := AfterSign(s, AfterSpace(s, 0));
    start < AfterDigits(s, start) == |s|
  }

  //////////////////////////////////////////////////////////////////////////////
  // Which texts are numbers
  //////////////////////////////////////////////////////////////////////////////

  /** Blanks, tabs and line feeds, then at most one sign, then digits up to the end. */
  ghost predicate NumberForm(s: string, space: string, sign: string, digits: string) {
    && s == space + sign + digits && digits != ""
    && (forall k :: 0 <= k < |space| ==> space[k] in {' ', '\t', '\n'})
    && (sign == "" || sign == "+" || sign == "-")
    && (forall k :: 0 <= k < |digits| ==> '0' <= digits[k] <= '9')
  }

  lemma {:induction false} SpaceSkipped(s: string, i: nat, end: nat)
    requires i <= end <= |s| && (end < |s| ==> !IsSpace(s[end])) && forall k :: i <= k < end ==> IsSpace(s[k])
    ensures AfterSpace(s, i) == end
    decreases end - i
  {
    if i < end { SpaceSkipped(s, i + 1, end); }
  }

  lemma {:induction false} SpaceBefore(s: string, i: nat)
    requires i <= |s|
    ensures forall k :: i <= k < AfterSpace(s, i) ==> IsSpace(s[k])
    decreases |s| - i
  {
    if i < |s| && IsSpace(s[i]) { SpaceBefore(s, i + 1); }
  }

  /** Every text of the form is a number, with these digits and this sign. */
  lemma FormIsNumber(s: string, space: string, sign: string, digits: string)
    requires NumberForm(s, space, sign, digits)
    ensures IsNumber(s) && DigitRun(s) == digits && (HasMinus(s) <==> sign == "-")
  {
    var i, start := |space|, |space| + |sign|;
    assert forall k :: 0 <= k < i ==> s[k] == space[k];
    assert sign != "" ==> s[i] == sign[0];
    assert forall k :: 0 <= k < |digits| ==> s[start + k] == digits[k];
    SpaceSkipped(s, 0, i);
    assert AfterSign(s, i) == start;
    AllDigitsRun(s, start);
    assert s[start..|s|] == digits;
  }

  /** And no other text is. */
  lemma NumberHasForm(s: string) returns (space: string, sign: string, digits: string)
    requires IsNumber(s)
    ensures NumberForm(s, space, sign, digits)
  {
    var i := AfterSpace(s, 0);
    var start := AfterSign(s, i);
    space, sign, digits := s[..i], s[i..start], s[start..];
    SpaceBefore(s, 0);
    assert sign == "" || sign == [s[i]];
  }

  lemma {:induction false} DigitsPrefix(s: string, i: nat)
    requires AllDigits(s) && i <= |s|
    ensures Digits(s[..i]) <= Digits(s)
    decreases |s| - i
  {
    if i == |s| {
      assert s[..i] == s;
    } else {
      assert s[..i + 1][..i] == s[..i];
      DigitsPrefix(s, i + 1);
    }
  }

  /** mpz_set_str on a C string (its terminator is the end of `s`): traps exactly when the digits read
      denote a number of 768 bits or more, and otherwise accepts exactly the texts that are numbers. */
  method MpzSetStr(result: Int, s: string, base: int) returns (ok: bool, status: int)
    requires result.limbs.Length == LIMBS
    modifies result, result.limbs
    ensures base != 0 && base != 10 ==> ok && status == -1
    ensures base == 0 || base == 10 ==> (ok <==> Digits(DigitRun(s)) < BPow(LIMBS))
    ensures (base == 0 || base == 10) && ok ==> status == if IsNumber(s) then 0 else -1
    ensures ok && status == 0 ==> result.Valid()
    ensures ok && status == 0 ==>
            result.Value() == Signed(HasMinus(s), Digits(DigitRun(s)))
  {
    if base != 0 && base != 10 { return true, -1; }
    var cursor := 0;
    while cursor < |s| && IsSpace(s[cursor])
      invariant cursor <= |s| && AfterSpace(s, cursor) == AfterSpace(s, 0)
    {
      cursor := cursor + 1;
    }
    var negative := false;
    if cursor < |s| && IsSign(s[cursor]) {
      negative := s[cursor] == '-';
      cursor := cursor + 1;
    }
    var end;
    ok, end := ReadDigits(result, s, cursor);
    if !ok { return false, 0; }
    if end == cursor || end != |s| { return true, -1; }
    ValidFacts(result);
    result.negative := negative && result.length != 0;
    status := 0;
  }

  /** One more digit of the run. */
  lemma RunStep(run: string, s: string, start: nat, cursor: nat)
    requires start <= cursor < |s| && IsDigit(s[cursor]) && AfterDigits(s, cursor) == start + |run|
    requires start + |run| <= |s| && run == s[start..start + |run|] && AllDigits(run)
    ensures cursor < start + |run| && AfterDigits(s, cursor + 1) == start + |run|
    ensures var k := cursor - start;
            Digits(run[..k + 1]) == 10 * Digits(run[..k]) + DigitOf(s[cursor]) <= Digits(run)
  {
    var k := cursor - start;
    assert s[cursor] == run[k] && run[..k + 1][..k] == run[..k];
    DigitsPrefix(run, k + 1);
  }

  /** The digit loop of mpz_set_str, from `start` to the end of the run. */
  method ReadDigits(result: Int, s: string, start: nat) returns (ok: bool, cursor: nat)
    requires result.limbs.Length == LIMBS && start <= |s|
    modifies result, result.limbs
    ensures ok <==> Digits(s[start..AfterDigits(s, start)]) < BPow(LIMBS)
    ensures ok ==> cursor == AfterDigits(s, start)
    ensures ok ==> result.Valid() && result.Value() == Digits(s[start..AfterDigits(s, start)])
  {
    ghost var run := s[start..AfterDigits(s, start)];
    cursor := start;
    IntegerZero(result);
    assert run[..0] == "";
    while cursor < |s| && IsDigit(s[cursor])
      invariant start <= cursor <= start + |run| && AfterDigits(s, cursor) == start + |run|
      invariant result.Valid() && result.Value() == Digits(run[..cursor - start])
    {
      RunStep(run, s, start, cursor);
      ok := PushDecimal(result, DigitOf(s[cursor]));
      if !ok { return false, 0; }
      cursor := cursor + 1;
    }
    assert run[..|run|] == run;
    ValidFacts(result);
    ok := true;
  }

  /** result = 10 * result + digit. */
  method PushDecimal(result: Int, digit: nat) returns (ok: bool)
    requires result.Valid() && 0 <= result.Value() && digit < 10
    modifies result, result.limbs
    ensures ok <==> 10 * old(result.Value()) + digit < BPow(LIMBS)
    ensures ok ==> result.Valid() && result.Value() == 10 * old(result.Value()) + digit
  {
    ValidFacts(result);
    var product := new Limb[LIMBS];
    var length;
    ok, length := TimesTen(product, result.limbs, result.length);
    if !ok { return; }
    ok, length := PlusDigit(result.limbs, product, length, digit);
    if ok { PushedLength(result, length); }
  }

  /** multiply_magnitude with the one limb 10. */
  method TimesTen(out: array<Limb>, x: array<Limb>, len: nat) returns (ok: bool, length: nat)
    requires out.Length == LIMBS && Normal(x[..], len) && out != x
    modifies out
    ensures ok <==> 10 * old(Val(x[..len])) < BPow(LIMBS)
    ensures ok ==> Normal(out[..], length) && Val(out[..length]) == 10 * old(Val(x[..len]))
  {
    var ten := new Limb[1](_ => 10);
    assert ten[..1] == [10];
    ValSingle(10);
    ok, length := Multiply(out, x, len, ten, 1);
  }

  /** add_magnitude with the one limb of a digit, which has length zero for the digit zero. */
  method PlusDigit(out: array<Limb>, x: array<Limb>, len: nat, digit: nat) returns (ok: bool, length: nat)
    requires out.Length == LIMBS && Normal(x[..], len) && out != x && digit < 10
    modifies out
    ensures ok <==> old(Val(x[..len])) + digit < BPow(LIMBS)
    ensures ok ==> Normal(out[..], length) && Val(out[..length]) == old(Val(x[..len])) + digit
  {
    var one := new Limb[1](_ => digit);
    assert one[..1] == [digit] && one[..0] == [];
    ValSingle(digit);
    ok, length := Add(out, x, len, one, if digit == 0 then 0 else 1);
  }

  /** The new length of a nonnegative integer. */
  method PushedLength(result: Int, length: nat)
    requires Normal(result.limbs[..], length) && result.limbs.Length == LIMBS && !result.negative
    modifies result
    ensures result.Valid() && result.Value() == old(Val(result.limbs[..length]))
  {
    result.length := length;
    assert length == 0 ==> result.limbs[..length] == [];
    ValidFacts(result);
  }

  //////////////////////////////////////////////////////////////////////////////
  // The round trip
  //////////////////////////////////////////////////////////////////////////////

  lemma {:induction false} AllDigitsRun(s: string, i: nat)
    requires i <= |s| && forall k :: i <= k < |s| ==> IsDigit(s[k])
    ensures AfterDigits(s, i) == |s|
    decreases |s| - i
  {
    if i < |s| { AllDigitsRun(s, i + 1); }
  }

  /** Every printed integer is a number to the parser, and denotes the integer. */
  lemma PrintedIsNumber(x: int)
    ensures var s := SignedText(x);
            && IsNumber(s) && Digits(DigitRun(s)) == Abs(x) && (HasMinus(s) <==> x < 0)
  {
    var s := SignedText(x);
    var start := if x < 0 then 1 else 0;
    assert AfterSpace(s, 0) == 0 && AfterSign(s, 0) == start;
    AllDigitsRun(s, start);
    assert DigitRun(s) == s[start..] == Text(Abs(x));
  }

  /** mpz_set_str(dec_str(n)) == n, with no trap on the way. */
  method PrintThenParse(n: Int, result: Int) returns (ok: bool, status: int)
    requires n.Valid() && result.limbs.Length == LIMBS && Apart(result, n)
    modifies result, result.limbs
    ensures ok && status == 0 && result.Valid() && result.Value() == old(n.Value())
  {
    ValidFacts(n);
    ghost var x := n.Value();
    var str := DecStr(n);
    PrintedIsNumber(x);
    ok, status := MpzSetStr(result, str[..str.Length - 1], 10);
  }
}
