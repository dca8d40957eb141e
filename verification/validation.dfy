/**
 The request-body rules checked before a handler runs (src/utils/validation.js):
 identifier format (e-mail or phone), password length, the sanitising `trim`,
 the required-field checks, and the pagination rules.

 A rule chain of the validation library runs every check in it (none of the
 chains uses `bail()`), so one field may report several issues; the handler
 answers 400 whenever the list of issues is non-empty. A missing body field
 reaches the rules as the empty string.
 */
module Validation {
  import opened Options
  import opened Text

  // ---------------------------------------------------------------------
  // Character classes of the two identifier patterns

  /** `[A-Za-z0-9._%+-]`, the local part of an e-mail address. */
  predicate IsLocalChar(c: char) {
    IsAsciiLetter(c) || IsDigit(c) || c == '.' || c == '_' || c == '%' || c == '+' || c == '-'
  }

  /** `[A-Za-z0-9.-]`, the domain part of an e-mail address. */
  predicate IsDomainChar(c: char) {
    IsAsciiLetter(c) || IsDigit(c) || c == '.' || c == '-'
  }

  /** `^[0-9]{10,}$`: ten or more ASCII digits and nothing else. */
  predicate IsPhone(s: string) {
    |s| >= 10 && AllDigits(s)
  }

  /** `^[A-Za-z0-9._%+-]+@[A-Za-z0-9.-]+\.[A-Za-z]{2,}$`, decided directly:
      the local part runs up to the only `@`; the top-level label follows the
      last `.` after it. */
  predicate IsEmail(s: string) {
    && '@' in s
    && var i := IndexOf(s, '@');
    && 0 < i
    && (forall k :: 0 <= k < i ==> IsLocalChar(s[k]))
    && var host := s[i + 1..];
    && '.' in host
    && var j := LastIndexOf(host, '.');
    && 0 < j
    && j + 2 < |host|
    && (forall k :: 0 <= k < j ==> IsDomainChar(host[k]))
    && (forall k :: j < k < |host| ==> IsAsciiLetter(host[k]))
  }

  /** The e-mail pattern read literally: some `@` at `i` and some `.` at `j`
      cut `s` into a non-empty local part, a non-empty domain part and a
      final run of at least two letters. */
  ghost predicate EmailPattern(s: string) {
    exists i, j :: EmailCut(s, i, j)
  }

  ghost predicate EmailCut(s: string, i: int, j: int) {
    && 0 < i && i + 1 < j && j + 2 < |s|
    && s[i] == '@' && s[j] == '.'
    && (forall k :: 0 <= k < i ==> IsLocalChar(s[k]))
    && (forall k :: i < k < j ==> IsDomainChar(s[k]))
    && (forall k :: j < k < |s| ==> IsAsciiLetter(s[k]))
  }

  /** The direct decision agrees with the pattern, in both directions. */
  lemma EmailDecision(s: string)
    ensures IsEmail(s) <==> EmailPattern(s)
  {
    if IsEmail(s) {
      EmailDecisionSound(s);
    }
    if EmailPattern(s) {
      var i, j :| EmailCut(s, i, j);
      EmailDecisionComplete(s, i, j);
    }
  }

  /** An accepted string has the cut the decision found. */
  lemma EmailDecisionSound(s: string)
    requires IsEmail(s)
    ensures EmailCut(s, IndexOf(s, '@'), IndexOf(s, '@') + 1 + LastIndexOf(s[IndexOf(s, '@') + 1..], '.'))
  {
    var i := IndexOf(s, '@');
    var host := s[i + 1..];
    var j := LastIndexOf(host, '.');
    forall k | i < k < i + 1 + j ensures IsDomainChar(s[k]) {
      assert s[k] == host[k - i - 1];
    }
    forall k | i + 1 + j < k < |s| ensures IsAsciiLetter(s[k]) {
      assert s[k] == host[k - i - 1];
    }
  }

  /** Any cut of the pattern is the one the decision finds, so it accepts. */
  lemma EmailDecisionComplete(s: string, i: int, j: int)
    requires EmailCut(s, i, j)
    ensures IsEmail(s)
  {
    assert '@' in s by { assert s[i] == '@'; }
    assert IndexOf(s, '@') == i;
    var host := s[i + 1..];
    assert host[j - i - 1] == '.';
    var j' := LastIndexOf(host, '.');
    assert j' == j - i - 1;
    forall k | 0 <= k < j' ensures IsDomainChar(host[k]) {
      assert host[k] == s[k + i + 1];
    }
    forall k | j' < k < |host| ensures IsAsciiLetter(host[k]) {
      assert host[k] == s[k + i + 1];
    }
  }

  /** No string is both a phone number and an e-mail address: phones have no `@`. */
  lemma PhoneEmailDisjoint(s: string)
    ensures !(IsPhone(s) && IsEmail(s))
  {
    if IsEmail(s) {
      var i := IndexOf(s, '@');
      assert !IsDigit(s[i]);
    }
  }

  // ---------------------------------------------------------------------
  // The custom validators

  /** `validateIdentifier`: passes (instead of throwing) iff the value is an
      e-mail address or a phone number. */
  predicate ValidIdentifier(v: string) {
    IsEmail(v) || IsPhone(v)
  }

  /** `validatePassword`: passes iff `value.length`, counted in UTF-16 code
      units, is at least 6. */
  predicate ValidPassword(v: string) {
    Utf16Length(v) >= 6
  }

  /** The length rule in terms of characters: six characters always suffice,
      fewer than three never do, and for text inside the Basic Multilingual
      Plane the threshold is exactly six characters. */
  lemma PasswordLength(v: string)
    ensures |v| >= 6 ==> ValidPassword(v)
    ensures |v| < 3 ==> !ValidPassword(v)
    ensures (forall k :: 0 <= k < |v| ==> (v[k] as int) < 0x10000) ==> (ValidPassword(v) <==> |v| >= 6)
  {
  }

  // ---------------------------------------------------------------------
  // Rule sets

  datatype Field = IdField | PasswordField | RefreshTokenField | ListSizeField | PageField

  /** One entry of the validation result: a required field left empty, or a
      value that fails the field's format check. */
  datatype Issue = Required(field: Field) | Invalid(field: Field)

  /** `authValidationRules`: `id` and `password` are trimmed, required
      non-empty, then checked by their custom validator. */
  function AuthIssues(id: string, password: string): (issues: seq<Issue>)
    ensures |issues| == 0 <==> Trim(id) != [] && ValidIdentifier(Trim(id))
                                 && Trim(password) != [] && ValidPassword(Trim(password))
    ensures Trim(id) == [] ==> Required(IdField) in issues && Invalid(IdField) in issues
    ensures Trim(password) == [] ==> Required(PasswordField) in issues && Invalid(PasswordField) in issues
  {
    var idValue := Trim(id);
    var pwValue := Trim(password);
    (if idValue == [] then [Required(IdField)] else [])
    + (if ValidIdentifier(idValue) then [] else [Invalid(IdField)])
    + (if pwValue == [] then [Required(PasswordField)] else [])
    + (if ValidPassword(pwValue) then [] else [Invalid(PasswordField)])
  }

  /** `refreshTokenValidationRules`: the token is only required to be
      non-empty; it is not trimmed. */
  function RefreshIssues(token: string): (issues: seq<Issue>)
    ensures |issues| == 0 <==> token != []
  {
    if token == [] then [Required(RefreshTokenField)] else []
  }

  /** `isInt({ min: 1 })`: an optionally signed run of decimal digits whose value is at least 1. */
  predicate IsPositiveInt(v: string) {
    IsIntString(v) && IntStringValue(v) >= 1
  }

  /** `paginationValidationRules`: each field, when present, must be an
      integer of at least 1; an absent field passes. */
  function PaginationIssues(listSize: Option<string>, page: Option<string>): (issues: seq<Issue>)
    ensures |issues| == 0 <==> (listSize.Some? ==> IsPositiveInt(listSize.value))
                                 && (page.Some? ==> IsPositiveInt(page.value))
  {
    (if listSize.Some? && !IsPositiveInt(listSize.value) then [Invalid(ListSizeField)] else [])
    + (if page.Some? && !IsPositiveInt(page.value) then [Invalid(PageField)] else [])
  }
}
