/**
 * The username claim form's schema: at least three characters, every one of
 * them a letter (either case), a hyphen or a backslash, and the accepted
 * username lowercased.
 */
module ClaimUsername {
  import opened Results

  /** The first issue the schema reports, which is the one the form shows. */
  datatype UsernameError =
    | TooShort           // `.min(3)` fails
    | InvalidCharacters  // `.regex(/^([a-z\\-]+)$/i)` fails

  function Message(e: UsernameError): string {
    match e
    case TooShort => " o usuário precisa ter pelo menos 3 letras!"
    case InvalidCharacters => "O usuário pode ter apenas letras e hífen!"
  }

  const MinLength: nat := 3

  predicate IsAsciiUpper(c: char) {
    'A' <= c <= 'Z'
  }

  predicate IsAsciiLower(c: char) {
    'a' <= c <= 'z'
  }

  function LowerChar(c: char): (r: char)
    ensures !IsAsciiUpper(r)
  {
    if IsAsciiUpper(c) then (c as int + 32) as char else c
  }

  function UpperChar(c: char): (r: char)
    ensures !IsAsciiLower(r)
  {
    if IsAsciiLower(c) then (c as int - 32) as char else c
  }

  /** `toLowerCase()`, on the characters an accepted username can hold. */
  function ToLower(s: string): string {
    seq(|s|, i requires 0 <= i < |s| => LowerChar(s[i]))
  }

  function ToUpper(s: string): string {
    seq(|s|, i requires 0 <= i < |s| => UpperChar(s[i]))
  }

  /** The class `[a-z\\-]` as written: a lower-case letter, a backslash or a hyphen. */
  predicate InClass(c: char) {
    IsAsciiLower(c) || c == '\\' || c == '-'
  }

  /** With the `i` flag a character matches when its case-folded form is in the class. */
  predicate MatchesClass(c: char) {
    InClass(LowerChar(c))
  }

  /** `^([a-z\\-]+)$` with the `i` flag: one or more matching characters and nothing else. */
  predicate MatchesPattern(s: string) {
    |s| >= 1 && forall i :: 0 <= i < |s| ==> MatchesClass(s[i])
  }

  /** The schema of the `username` field. */
  function ValidateUsername(s: string): Result<string, UsernameError> {
    if |s| < MinLength then Err(TooShort)
    else if !MatchesPattern(s) then Err(InvalidCharacters)
    else Ok(ToLower(s))
  }

  /** The characters a username may hold: ASCII letters of either case, the backslash and the hyphen. */
  predicate IsUsernameChar(c: char) {
    IsAsciiLower(c) || IsAsciiUpper(c) || c == '\\' || c == '-'
  }

  // ---------------------------------------------------------------------------

  /** The case-insensitive class admits exactly letters of both cases, backslash and hyphen. */
  lemma MatchesClassIff(c: char)
    ensures MatchesClass(c) <==> IsUsernameChar(c)
  {
  }

  /** The empty string does not match, because of `+`. */
  lemma EmptyDoesNotMatch()
    ensures !MatchesPattern("")
  {
  }

  /**
   * Rejection and acceptance: too short first, then a foreign character; a
   * string is accepted exactly when it is long enough and every character is a
   * letter, a backslash or a hyphen, and the result is the input lowercased,
   * of the same length and with no upper-case letter.
   */
  lemma ValidateUsernameSpec(s: string)
    ensures |s| < 3 <==> ValidateUsername(s) == Err(TooShort)
    ensures ValidateUsername(s) == Err(InvalidCharacters) <==>
      |s| >= 3 && exists i :: 0 <= i < |s| && !IsUsernameChar(s[i])
    ensures ValidateUsername(s).Ok? <==> |s| >= 3 && forall i :: 0 <= i < |s| ==> IsUsernameChar(s[i])
    ensures ValidateUsername(s).Ok? ==>
      var u := ValidateUsername(s).value;
      && |u| == |s|
      && (forall i :: 0 <= i < |u| ==> !IsAsciiUpper(u[i]) && UpperChar(u[i]) == UpperChar(s[i]))
  {
    forall i | 0 <= i < |s|
      ensures MatchesClass(s[i]) <==> IsUsernameChar(s[i])
    {
      MatchesClassIff(s[i]);
    }
  }

  lemma CaseFoldChar(c: char)
    ensures IsUsernameChar(UpperChar(c)) <==> IsUsernameChar(c)
    ensures IsUsernameChar(LowerChar(c)) <==> IsUsernameChar(c)
    ensures LowerChar(UpperChar(c)) == LowerChar(c) && LowerChar(LowerChar(c)) == LowerChar(c)
  {
  }

  /** Upper-casing or lower-casing a string first changes neither the verdict nor the result. */
  lemma CaseInsensitive(s: string)
    ensures ValidateUsername(ToUpper(s)) == ValidateUsername(s)
    ensures ValidateUsername(ToLower(s)) == ValidateUsername(s)
  {
    ValidateUsernameSpec(s);
    ValidateUsernameSpec(ToUpper(s));
    ValidateUsernameSpec(ToLower(s));
    forall i | 0 <= i < |s|
      ensures IsUsernameChar(ToUpper(s)[i]) <==> IsUsernameChar(s[i])
      ensures IsUsernameChar(ToLower(s)[i]) <==> IsUsernameChar(s[i])
    {
      CaseFoldChar(s[i]);
    }
    assert ToLower(ToUpper(s)) == ToLower(s);
    assert ToLower(ToLower(s)) == ToLower(s);
  }

  /** An accepted username is accepted again and maps to itself. */
  lemma NormalisationIdempotent(s: string)
    requires ValidateUsername(s).Ok?
    ensures ValidateUsername(ValidateUsername(s).value) == ValidateUsername(s)
  {
    CaseInsensitive(s);
  }
}
