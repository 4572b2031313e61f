/**
 * The stateless helpers of the password manager: the random password generator and the
 * strength meter with its labels and colours. The random words the generator consumes
 * are an input.
 */
module PasswordTools {
  import opened Text

  type uint32 = x: int | 0 <= x < 0x1_0000_0000

  const Uppercase: string := "ABCDEFGHIJKLMNOPQRSTUVWXYZ"
  const Lowercase: string := "abcdefghijklmnopqrstuvwxyz"
  const Digits: string := "0123456789"
  const Symbols: string := "!@#$%^&*()_+-=[]{}|;:,.<>?"
  /** The fallback pool: the lower-case letters, the upper-case letters, then the digits. */
  const Alphanumeric: string := Lowercase + Uppercase + Digits

  datatype GeneratorOptions = GeneratorOptions(uppercase: bool, lowercase: bool, numbers: bool, symbols: bool)

  /** The options when the caller passes none. */
  const DefaultOptions := GeneratorOptions(true, true, true, true)

  /** The character pool: enabled alphabets in the order upper, lower, digits, symbols. */
  function Pool(opts: GeneratorOptions): (r: string)
    ensures |r| > 0
    ensures opts.uppercase ==> Uppercase <= r
    ensures opts == GeneratorOptions(false, false, false, false) ==> r == Alphanumeric
    ensures opts != GeneratorOptions(false, false, false, false) ==>
      |r| == (if opts.uppercase then |Uppercase| else 0) + (if opts.lowercase then |Lowercase| else 0)
             + (if opts.numbers then |Digits| else 0) + (if opts.symbols then |Symbols| else 0)
  {
    var withUpper := if opts.uppercase then Uppercase else "";
    var withLower := if opts.lowercase then withUpper + Lowercase else withUpper;
    var withDigits := if opts.numbers then withLower + Digits else withLower;
    var chars := if opts.symbols then withDigits + Symbols else withDigits;
    if chars == "" then Alphanumeric else chars
  }

  /**
   * `generatePassword(length, options)` with `random` the `Uint32Array` filled by
   * `crypto.getRandomValues`: character `i` is `pool[random[i] % pool.length]`.
   */
  method GeneratePassword(length: nat, opts: GeneratorOptions, random: seq<uint32>) returns (password: string)
    requires |random| == length
    ensures |password| == length
    ensures forall i :: 0 <= i < length ==> password[i] == Pool(opts)[random[i] % |Pool(opts)|]
    ensures forall i :: 0 <= i < length ==> password[i] in Pool(opts)
  {
    var chars := "";
    if opts.uppercase { chars := Uppercase; }
    if opts.lowercase { chars := chars + Lowercase; }
    if opts.numbers { chars := chars + Digits; }
    if opts.symbols { chars := chars + Symbols; }
    if chars == "" { chars := Alphanumeric; }
    assert chars == Pool(opts);
    password := seq(length, i requires 0 <= i < length => chars[random[i] % |chars|]);
  }

  predicate IsPoolSymbol(c: char) { c in Symbols }

  lemma UppercaseMembers(c: char)
    ensures c in Uppercase <==> IsUpper(c)
  {
    assert Uppercase == seq(26, i requires 0 <= i < 26 => ('A' as int + i) as char);
    if IsUpper(c) { assert Uppercase[c as int - 'A' as int] == c; }
  }

  lemma LowercaseMembers(c: char)
    ensures c in Lowercase <==> IsLower(c)
  {
    assert Lowercase == seq(26, i requires 0 <= i < 26 => ('a' as int + i) as char);
    if IsLower(c) { assert Lowercase[c as int - 'a' as int] == c; }
  }

  lemma DigitMembers(c: char)
    ensures c in Digits <==> IsDigit(c)
  {
    assert Digits == seq(10, i requires 0 <= i < 10 => ('0' as int + i) as char);
    if IsDigit(c) { assert Digits[c as int - '0' as int] == c; }
  }

  lemma SymbolMembers(c: char)
    ensures c in Symbols ==> !IsAsciiAlnum(c)
  {
  }

  lemma AlphanumericMembers(c: char)
    ensures c in Alphanumeric <==> c in Lowercase || c in Uppercase || c in Digits
  {
    assert c in Lowercase + Uppercase + Digits <==> c in Lowercase || c in Uppercase || c in Digits;
  }

  lemma AlphabetMembers(c: char)
    ensures c in Uppercase <==> IsUpper(c)
    ensures c in Lowercase <==> IsLower(c)
    ensures c in Digits <==> IsDigit(c)
    ensures c in Alphanumeric <==> IsAsciiAlnum(c)
    ensures c in Symbols ==> !IsAsciiAlnum(c)
  {
    UppercaseMembers(c);
    LowercaseMembers(c);
    DigitMembers(c);
    SymbolMembers(c);
    AlphanumericMembers(c);
  }

  /** Whether `c` belongs to one of the classes `opts` enables (all alphanumerics when none is). */
  predicate InEnabledClass(opts: GeneratorOptions, c: char) {
    if opts == GeneratorOptions(false, false, false, false) then IsAsciiAlnum(c)
    else
      (opts.uppercase && IsUpper(c)) || (opts.lowercase && IsLower(c))
      || (opts.numbers && IsDigit(c)) || (opts.symbols && IsPoolSymbol(c))
  }

  /** The pool is never empty and holds exactly the characters of the enabled classes. */
  lemma PoolMembers(opts: GeneratorOptions, c: char)
    ensures |Pool(opts)| > 0
    ensures c in Pool(opts) <==> InEnabledClass(opts, c)
  {
    AlphabetMembers(c);
  }

  // ---------------------------------------------------------------------------
  // Strength scoring

  predicate HasLower(s: string) { exists i :: 0 <= i < |s| && IsLower(s[i]) }
  predicate HasUpper(s: string) { exists i :: 0 <= i < |s| && IsUpper(s[i]) }
  predicate HasDigit(s: string) { exists i :: 0 <= i < |s| && IsDigit(s[i]) }
  predicate HasSymbol(s: string) { exists i :: 0 <= i < |s| && !IsAsciiAlnum(s[i]) }

  /** How many of the four classes `/[a-z]/`, `/[A-Z]/`, `/[0-9]/`, `/[^a-zA-Z0-9]/` occur. */
  function ClassCount(s: string): (n: nat)
    ensures n <= 4
    ensures s == "" ==> n == 0
    ensures s != "" ==> n >= 1
  {
    assert s != "" ==> (IsLower(s[0]) || IsUpper(s[0]) || IsDigit(s[0]) || !IsAsciiAlnum(s[0]));
    (if HasLower(s) then 1 else 0) + (if HasUpper(s) then 1 else 0)
    + (if HasDigit(s) then 1 else 0) + (if HasSymbol(s) then 1 else 0)
  }

  /** `/^[a-z]+$|^[A-Z]+$|^[0-9]+$/i`: with the `i` flag, any mix of ASCII letters matches. */
  predicate SingleClass(s: string) {
    |s| > 0 &&
    ((forall i :: 0 <= i < |s| ==> IsLower(s[i]) || IsUpper(s[i])) || (forall i :: 0 <= i < |s| ==> IsDigit(s[i])))
  }

  /** The characters `.` does not match. */
  predicate IsLineTerminator(c: char) {
    c == '\n' || c == '\r' || c as int == 0x2028 || c as int == 0x2029
  }

  /** `/(.)\1{2,}/`: some character other than a line terminator three times in a row. */
  predicate HasTripleRun(s: string) {
    exists i :: 0 <= i && i + 2 < |s| && s[i] == s[i + 1] && s[i + 1] == s[i + 2] && !IsLineTerminator(s[i])
  }

  const WeakPrefixes: seq<string> := ["password", "123456", "qwerty"]

  /** `/^(password|123456|qwerty)/i` */
  predicate HasWeakPrefix(s: string) {
    exists k :: 0 <= k < |WeakPrefixes| && IsPrefix(WeakPrefixes[k], Lower(s))
  }

  /** The points deducted: 10 for a single class, 10 for a run of three, 30 for a weak prefix. */
  function Penalty(s: string): nat {
    (if SingleClass(s) then 10 else 0) + (if HasTripleRun(s) then 10 else 0) + (if HasWeakPrefix(s) then 30 else 0)
  }

  function Clamp(x: int, lo: int, hi: int): int
    requires lo <= hi
  {
    if x < lo then lo else if x > hi then hi else x
  }

  /** `calculatePasswordStrength` */
  function Strength(password: string): (score: int)
    ensures 0 <= score <= 100
    ensures password == "" ==> score == 0
  {
    if password == "" then 0
    else
      var length := if |password| * 4 < 40 then |password| * 4 else 40;
      var classes := ClassCount(password);
      var raw := length + 10 * classes + 5 * classes - Penalty(password);
      Clamp(raw, 0, 100)
  }

  /** A class present in a password is present in every extension of it. */
  lemma ClassCountGrows(p: string, q: string)
    ensures ClassCount(p) <= ClassCount(p + q)
  {
    if HasLower(p) { var i :| 0 <= i < |p| && IsLower(p[i]); assert (p + q)[i] == p[i]; }
    if HasUpper(p) { var i :| 0 <= i < |p| && IsUpper(p[i]); assert (p + q)[i] == p[i]; }
    if HasDigit(p) { var i :| 0 <= i < |p| && IsDigit(p[i]); assert (p + q)[i] == p[i]; }
    if HasSymbol(p) { var i :| 0 <= i < |p| && !IsAsciiAlnum(p[i]); assert (p + q)[i] == p[i]; }
  }

  /**
   * Extending a password never lowers its score unless the extension costs more penalty
   * points than the password had: length points and classes only grow.
   */
  lemma StrengthGrowsWithExtension(p: string, q: string)
    requires Penalty(p + q) <= Penalty(p)
    ensures Strength(p) <= Strength(p + q)
  {
    if p != "" {
      ClassCountGrows(p, q);
    }
  }

  /**
   * Ten characters earn all the length points: with no penalty, a password of ten or more
   * characters scores 40 plus 15 per class, at least 55 and never clamped.
   */
  lemma StrengthOfLongPenaltyFree(password: string)
    requires |password| >= 10
    requires Penalty(password) == 0
    ensures Strength(password) == 40 + 15 * ClassCount(password)
    ensures 55 <= Strength(password)
  {
  }

  /** With no penalty, a password scores its length points plus 15 per class. */
  lemma StrengthOfPenaltyFree(password: string)
    requires password != "" && Penalty(password) == 0
    ensures Strength(password) == (if |password| < 10 then 4 * |password| else 40) + 15 * ClassCount(password)
  {
  }

  /** Past ten characters length no longer matters: equal classes and penalties give equal scores. */
  lemma StrengthIgnoresLengthPastTen(p: string, q: string)
    requires |p| >= 10 && |q| >= 10
    requires ClassCount(p) == ClassCount(q) && Penalty(p) == Penalty(q)
    ensures Strength(p) == Strength(q)
  {
  }

  /** "123456" starts with a weak pattern, is digits only: 24 + 15 - 10 - 30 clamps to 0. */
  lemma StrengthOfDigitRun()
    ensures Strength("123456") == 0
  {
    var s := "123456";
    assert IsDigit(s[0]);
    assert !HasLower(s) && !HasUpper(s) && !HasSymbol(s);
    assert IsPrefix(WeakPrefixes[1], Lower(s));
  }

  lemma NoTripleRun(s: string)
    requires forall i :: 0 <= i < |s| - 1 ==> s[i] != s[i + 1]
    ensures !HasTripleRun(s)
  {
  }

  lemma NoWeakPrefix(s: string)
    requires s != [] && LowerChar(s[0]) != 'p' && LowerChar(s[0]) != '1' && LowerChar(s[0]) != 'q'
    ensures !HasWeakPrefix(s)
  {
    assert Lower(s)[0] == LowerChar(s[0]);
    forall k | 0 <= k < |WeakPrefixes|
      ensures !IsPrefix(WeakPrefixes[k], Lower(s))
    {
      assert WeakPrefixes[k][0] in "p1q";
    }
  }

  /** A run of one lower-case letter: 32 + 15 - 10 (single class) - 10 (run) = 27. */
  lemma StrengthOfRepeatedLetter()
    ensures Strength("aaaaaaaa") == 27
  {
    var s := "aaaaaaaa";
    assert IsLower(s[0]) && s[0] == s[1] == s[2];
    assert !HasUpper(s) && !HasDigit(s) && !HasSymbol(s);
    NoWeakPrefix(s);
  }

  /** All four classes, no penalty: 32 + 60 = 92. */
  lemma StrengthOfMixedClasses()
    ensures Strength("aB3$aB3$") == 92
  {
    var s := "aB3$aB3$";
    assert IsLower(s[0]) && IsUpper(s[1]) && IsDigit(s[2]) && !IsAsciiAlnum(s[3]);
    assert ClassCount(s) == 4;
    assert !SingleClass(s);
    NoTripleRun(s);
    NoWeakPrefix(s);
    StrengthOfPenaltyFree(s);
  }

  /** A repeated single class scores below mixed classes of the same length. */
  lemma StrengthMixedBeatsRepeated()
    ensures Strength("aaaaaaaa") < Strength("aB3$aB3$")
  {
    StrengthOfRepeatedLetter();
    StrengthOfMixedClasses();
  }

  /** Because of the `i` flag a mixed-case, letters-only password takes the single-class penalty. */
  lemma StrengthPenalisesMixedCaseLetters()
    ensures Strength("abcDEF") == 44
  {
    var s := "abcDEF";
    assert IsLower(s[0]) && IsUpper(s[3]);
    assert !HasDigit(s) && !HasSymbol(s);
    assert SingleClass(s);
    NoTripleRun(s);
    NoWeakPrefix(s);
  }

  // ---------------------------------------------------------------------------
  // Labels and colours

  const BandLabels: seq<string> := ["Very Weak", "Weak", "Fair", "Strong", "Very Strong"]
  const BandColors: seq<string> := ["#ef4444", "#f97316", "#eab308", "#22c55e", "#10b981"]

  /** The band of a score: twenty points wide, the outer bands open-ended. */
  function Band(score: int): (b: nat)
    ensures b <= 4
  {
    if score < 0 then 0 else if score / 20 > 4 then 4 else score / 20
  }

  lemma BandMonotone(s: int, t: int)
    requires s <= t
    ensures Band(s) <= Band(t)
  {
  }

  /** `getStrengthLabel` */
  function StrengthLabel(strength: int): (name: string)
    ensures name == BandLabels[Band(strength)]
    ensures name == "Very Weak" <==> strength < 20
    ensures name == "Very Strong" <==> strength >= 80
  {
    if strength < 20 then "Very Weak"
    else if strength < 40 then "Weak"
    else if strength < 60 then "Fair"
    else if strength < 80 then "Strong"
    else "Very Strong"
  }

  /** `getStrengthColor` */
  function StrengthColor(strength: int): (color: string)
    ensures color == BandColors[Band(strength)]
  {
    if strength < 20 then "#ef4444"
    else if strength < 40 then "#f97316"
    else if strength < 60 then "#eab308"
    else if strength < 80 then "#22c55e"
    else "#10b981"
  }
}
