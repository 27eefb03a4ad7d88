/**
 * The input-validation example: after NFKC normalisation an e-mail address is
 * matched against `^[A-Za-z0-9._%+-]+@[A-Za-z0-9.-]+\.[A-Za-z]{2,}$`. The
 * normalisation is the `normalize` parameter.
 */
module EmailValidation {
  import opened Wrappers
  import opened Regex

  /** `[A-Za-z0-9._%+-]` */
  const LocalClass: CharClass :=
    [Range('A', 'Z'), Range('a', 'z'), Range('0', '9'), Range('.', '.'), Range('_', '_'),
     Range('%', '%'), Range('+', '+'), Range('-', '-')]

  /** `[A-Za-z0-9.-]` */
  const DomainClass: CharClass := [Range('A', 'Z'), Range('a', 'z'), Range('0', '9'), Range('.', '.'), Range('-', '-')]

  /** `[A-Za-z]` */
  const LetterClass: CharClass := [Range('A', 'Z'), Range('a', 'z')]

  /** The pattern, built from its end: `[A-Za-z]{2,}`, then `\.` before it, the domain `[A-Za-z0-9.-]+`, `@`, the local part. */
  const TldPattern: Regex := Repeat(LetterClass, 2, None)
  const DotTldPattern: Regex := Concat(Lit('.'), TldPattern)
  const DomainTailPattern: Regex := Concat(Plus(DomainClass), DotTldPattern)
  const AtTailPattern: Regex := Concat(Lit('@'), DomainTailPattern)
  const EmailPattern: Regex := Concat(Plus(LocalClass), AtTailPattern)

  predicate IsLetter(c: char) {
    'A' <= c <= 'Z' || 'a' <= c <= 'z'
  }

  predicate IsDomainChar(c: char) {
    IsLetter(c) || '0' <= c <= '9' || c == '.' || c == '-'
  }

  predicate IsLocalChar(c: char) {
    IsLetter(c) || '0' <= c <= '9' || c == '.' || c == '_' || c == '%' || c == '+' || c == '-'
  }

  lemma LocalClassIsLocalChar(c: char)
    ensures InClass(c, LocalClass) <==> IsLocalChar(c)
  {
    var cls := LocalClass;
    if 'A' <= c <= 'Z' { assert cls[0].lo <= c <= cls[0].hi; }
    else if 'a' <= c <= 'z' { assert cls[1].lo <= c <= cls[1].hi; }
    else if '0' <= c <= '9' { assert cls[2].lo <= c <= cls[2].hi; }
    else if c == '.' { assert cls[3].lo <= c <= cls[3].hi; }
    else if c == '_' { assert cls[4].lo <= c <= cls[4].hi; }
    else if c == '%' { assert cls[5].lo <= c <= cls[5].hi; }
    else if c == '+' { assert cls[6].lo <= c <= cls[6].hi; }
    else if c == '-' { assert cls[7].lo <= c <= cls[7].hi; }
  }

  lemma DomainClassIsDomainChar(c: char)
    ensures InClass(c, DomainClass) <==> IsDomainChar(c)
  {
    var cls := DomainClass;
    if 'A' <= c <= 'Z' { assert cls[0].lo <= c <= cls[0].hi; }
    else if 'a' <= c <= 'z' { assert cls[1].lo <= c <= cls[1].hi; }
    else if '0' <= c <= '9' { assert cls[2].lo <= c <= cls[2].hi; }
    else if c == '.' { assert cls[3].lo <= c <= cls[3].hi; }
    else if c == '-' { assert cls[4].lo <= c <= cls[4].hi; }
  }

  lemma LetterClassIsLetter(c: char)
    ensures InClass(c, LetterClass) <==> IsLetter(c)
  {
    var cls := LetterClass;
    if 'A' <= c <= 'Z' { assert cls[0].lo <= c <= cls[0].hi; }
    else if 'a' <= c <= 'z' { assert cls[1].lo <= c <= cls[1].hi; }
  }

  /** `s` is local '@' domain '.' tld with the '@' at `i` and that '.' at `j`. */
  ghost predicate IsSplit(s: string, i: int, j: int) {
    0 < i && i + 1 < j && j + 3 <= |s| &&
    s[i] == '@' && s[j] == '.' &&
    (forall k :: 0 <= k < i ==> IsLocalChar(s[k])) &&
    (forall k :: i < k < j ==> IsDomainChar(s[k])) &&
    (forall k :: j < k < |s| ==> IsLetter(s[k]))
  }

  /** The shape of an address: a non-empty local part, '@', a non-empty domain, '.', and at least two letters. */
  ghost predicate EmailShape(s: string) {
    exists i, j :: IsSplit(s, i, j)
  }

  lemma AllLocal(t: string)
    ensures AllInClass(t, LocalClass) <==> forall k :: 0 <= k < |t| ==> IsLocalChar(t[k])
  {
    forall k | 0 <= k < |t| { LocalClassIsLocalChar(t[k]); }
  }

  lemma AllDomain(t: string)
    ensures AllInClass(t, DomainClass) <==> forall k :: 0 <= k < |t| ==> IsDomainChar(t[k])
  {
    forall k | 0 <= k < |t| { DomainClassIsDomainChar(t[k]); }
  }

  lemma AllLetters(t: string)
    ensures AllInClass(t, LetterClass) <==> forall k :: 0 <= k < |t| ==> IsLetter(t[k])
  {
    forall k | 0 <= k < |t| { LetterClassIsLetter(t[k]); }
  }

  // One lemma per layer of the pattern, so that each proof sees a single concatenation.

  lemma DotTldMatches(t: string)
    ensures Matches(DotTldPattern, t) <==> |t| >= 3 && t[0] == '.' && forall k :: 1 <= k < |t| ==> IsLetter(t[k])
  {
    var tail := if t == [] then "" else t[1..];
    if Matches(DotTldPattern, t) {
      var k := ConcatElim(Lit('.'), TldPattern, t);
      assert t[..k] == ['.'];
      assert t[k..] == tail;
    }
    RepeatMatches(LetterClass, 2, None, tail);
    AllLetters(tail);
    if |t| >= 3 && t[0] == '.' && forall k :: 1 <= k < |t| ==> IsLetter(t[k]) {
      forall k | 0 <= k < |tail| ensures IsLetter(tail[k]) { assert tail[k] == t[k + 1]; }
      assert t[..1] == ['.'] && t[1..] == tail;
      ConcatIntro(Lit('.'), TldPattern, t, 1);
    }
  }

  lemma DomainTailElim(t: string) returns (k: nat)
    requires Matches(DomainTailPattern, t)
    ensures 1 <= k <= |t| && (forall m :: 0 <= m < k ==> IsDomainChar(t[m])) && Matches(DotTldPattern, t[k..])
  {
    k := ConcatElim(Plus(DomainClass), DotTldPattern, t);
    var domain := t[..k];
    RepeatMatches(DomainClass, 1, None, domain);
    AllDomain(domain);
    forall m | 0 <= m < k ensures IsDomainChar(t[m]) { assert t[m] == domain[m]; }
  }

  lemma DomainTailIntro(t: string, k: nat)
    requires 1 <= k <= |t| && (forall m :: 0 <= m < k ==> IsDomainChar(t[m])) && Matches(DotTldPattern, t[k..])
    ensures Matches(DomainTailPattern, t)
  {
    var domain := t[..k];
    AllDomain(domain);
    RepeatMatches(DomainClass, 1, None, domain);
    ConcatIntro(Plus(DomainClass), DotTldPattern, t, k);
  }

  lemma AtTailMatches(t: string)
    ensures Matches(AtTailPattern, t) <==> |t| >= 1 && t[0] == '@' && Matches(DomainTailPattern, t[1..])
  {
    if Matches(AtTailPattern, t) {
      var k := ConcatElim(Lit('@'), DomainTailPattern, t);
      assert t[..k] == ['@'];
    }
    if |t| >= 1 && t[0] == '@' && Matches(DomainTailPattern, t[1..]) {
      assert t[..1] == ['@'];
      ConcatIntro(Lit('@'), DomainTailPattern, t, 1);
    }
  }

  lemma EmailElim(s: string) returns (k: nat)
    requires Matches(EmailPattern, s)
    ensures 1 <= k <= |s| && (forall m :: 0 <= m < k ==> IsLocalChar(s[m])) && Matches(AtTailPattern, s[k..])
  {
    k := ConcatElim(Plus(LocalClass), AtTailPattern, s);
    var local := s[..k];
    RepeatMatches(LocalClass, 1, None, local);
    AllLocal(local);
    forall m | 0 <= m < k ensures IsLocalChar(s[m]) { assert s[m] == local[m]; }
  }

  lemma EmailIntro(s: string, k: nat)
    requires 1 <= k <= |s| && (forall m :: 0 <= m < k ==> IsLocalChar(s[m])) && Matches(AtTailPattern, s[k..])
    ensures Matches(EmailPattern, s)
  {
    var local := s[..k];
    AllLocal(local);
    RepeatMatches(LocalClass, 1, None, local);
    ConcatIntro(Plus(LocalClass), AtTailPattern, s, k);
  }

  /** What follows the local part of a match: '@', a non-empty domain ending before a '.', and at least two letters. */
  lemma AtTailElim(t: string) returns (j: nat)
    requires Matches(AtTailPattern, t)
    ensures 2 <= j && j + 3 <= |t| && t[0] == '@' && t[j] == '.'
    ensures forall k :: 0 < k < j ==> IsDomainChar(t[k])
    ensures forall k :: j < k < |t| ==> IsLetter(t[k])
  {
    AtTailMatches(t);
    var afterAt := t[1..];
    var d := DomainTailElim(afterAt);
    j := 1 + d;
    var dotTld := afterAt[d..];
    assert dotTld == t[j..];
    DotTldMatches(dotTld);
    forall k | 0 < k < j ensures IsDomainChar(t[k]) { assert t[k] == afterAt[k - 1]; }
    forall k | j < k < |t| ensures IsLetter(t[k]) { assert t[k] == dotTld[k - j]; }
  }

  /** A match of the pattern is an address of that shape. */
  lemma MatchIsShape(s: string) returns (i: nat, j: nat)
    requires Matches(EmailPattern, s)
    ensures IsSplit(s, i, j)
  {
    i := EmailElim(s);
    var afterLocal := s[i..];
    var d := AtTailElim(afterLocal);
    j := i + d;
    forall k | i < k < j ensures IsDomainChar(s[k]) { assert s[k] == afterLocal[k - i]; }
    forall k | j < k < |s| ensures IsLetter(s[k]) { assert s[k] == afterLocal[k - i]; }
  }

  /** An address of that shape matches the pattern. */
  lemma ShapeIsMatch(s: string, i: nat, j: nat)
    requires IsSplit(s, i, j)
    ensures Matches(EmailPattern, s)
  {
    var dotTld := s[j..];
    forall k | 1 <= k < |dotTld| ensures IsLetter(dotTld[k]) { assert dotTld[k] == s[j + k]; }
    DotTldMatches(dotTld);
    var afterAt := s[i + 1..];
    assert afterAt[j - i - 1..] == dotTld;
    forall m | 0 <= m < j - i - 1 ensures IsDomainChar(afterAt[m]) { assert afterAt[m] == s[i + 1 + m]; }
    DomainTailIntro(afterAt, j - i - 1);
    var afterLocal := s[i..];
    assert afterLocal[1..] == afterAt;
    AtTailMatches(afterLocal);
    EmailIntro(s, i);
  }

  /** The pattern accepts exactly the addresses of the shape local '@' domain '.' tld. */
  lemma EmailPatternMatches(s: string)
    ensures Matches(EmailPattern, s) <==> EmailShape(s)
  {
    if Matches(EmailPattern, s) {
      var i, j := MatchIsShape(s);
    }
    if EmailShape(s) {
      var i: nat, j: nat :| IsSplit(s, i, j);
      ShapeIsMatch(s, i, j);
    }
  }

  /** No class admits '@', so a valid address contains exactly one. */
  lemma ValidEmailHasOneAt(s: string)
    requires Matches(EmailPattern, s)
    ensures exists i :: 0 <= i < |s| && s[i] == '@' && forall k :: 0 <= k < |s| && s[k] == '@' ==> k == i
  {
    var i, j := MatchIsShape(s);
    assert forall k :: 0 <= k < |s| && s[k] == '@' ==> k == i;
  }

  /** A valid address ends in '.' followed by at least two letters. */
  lemma ValidEmailEndsInTld(s: string)
    requires Matches(EmailPattern, s)
    ensures exists j :: 0 <= j && j + 3 <= |s| && s[j] == '.' && forall k :: j < k < |s| ==> IsLetter(s[k])
  {
    var i, j := MatchIsShape(s);
  }

  /** A valid address has at least six characters (one local, '@', one domain, '.', two letters) and no space in it. */
  lemma ValidEmailHasNoSpace(s: string)
    requires Matches(EmailPattern, s)
    ensures |s| >= 6
    ensures forall k :: 0 <= k < |s| ==> s[k] != ' '
  {
    var i, j := MatchIsShape(s);
  }

  /** The verdict `main` prints: whether the normalised input matches. */
  function IsValidEmail(normalize: string -> string, input: string): (valid: bool)
    ensures valid <==> EmailShape(normalize(input))
  {
    EmailPatternMatches(normalize(input));
    Matches(EmailPattern, normalize(input))
  }

  /** The input of `main`, "test@example.com", is reported valid. */
  lemma MainInputValid(normalize: string -> string)
    requires normalize("test@example.com") == "test@example.com"
    ensures IsValidEmail(normalize, "test@example.com")
  {
    assert IsSplit("test@example.com", 4, 12);
  }
}
