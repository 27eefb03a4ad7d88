/**
 * The validating proxy of the proxy-pattern example: `ArticleServiceValidator`
 * checks a name and an optional description against two regular expressions
 * and forwards the call to the wrapped `ArticleService` only when both pass.
 * The same class appears twice in the repository (src/Proxy/ArticleServiceValidator.java
 * and, with identical text, inside src/Proxy/Proxy.java); this module models it once.
 *
 * Java `null` is `None`; an `IllegalArgumentException` is a `Fail`/`Failure`
 * carrying the exception's message. The NFKC normalisation applied before
 * matching is the validator's `normalize` parameter.
 */
module ArticleValidation {
  import opened Wrappers
  import opened Regex

  // ---------------------------------------------------------------- patterns

  /** `[a-zA-Z0-9 ]` */
  const NameClass: CharClass := [Range('a', 'z'), Range('A', 'Z'), Range('0', '9'), Range(' ', ' ')]

  /** `[a-zA-Z0-9,:.\-)( ]` */
  const DescriptionClass: CharClass :=
    [Range('a', 'z'), Range('A', 'Z'), Range('0', '9'), Range(',', ','), Range(':', ':'),
     Range('.', '.'), Range('-', '-'), Range(')', ')'), Range('(', '('), Range(' ', ' ')]

  /** `^[a-zA-Z0-9 ]{4,64}$` */
  const NamePattern: Regex := Repeat(NameClass, 4, Some(64))

  /** `^[a-zA-Z0-9,:.\-)( ]{0,256}$` */
  const DescriptionPattern: Regex := Repeat(DescriptionClass, 0, Some(256))

  predicate IsNameChar(c: char) {
    'a' <= c <= 'z' || 'A' <= c <= 'Z' || '0' <= c <= '9' || c == ' '
  }

  predicate IsDescriptionChar(c: char) {
    'a' <= c <= 'z' || 'A' <= c <= 'Z' || '0' <= c <= '9' ||
    c == ',' || c == ':' || c == '.' || c == '-' || c == ')' || c == '(' || c == ' '
  }

  /** The name rule in plain terms: 4 to 64 characters, letters, digits and spaces only. */
  predicate ValidName(s: string) {
    4 <= |s| <= 64 && forall i :: 0 <= i < |s| ==> IsNameChar(s[i])
  }

  /** The description rule in plain terms: at most 256 characters (possibly none) from the description alphabet. */
  predicate ValidDescription(s: string) {
    |s| <= 256 && forall i :: 0 <= i < |s| ==> IsDescriptionChar(s[i])
  }

  lemma NameClassIsNameChar(c: char)
    ensures InClass(c, NameClass) <==> IsNameChar(c)
  {
    if 'a' <= c <= 'z' { assert NameClass[0].lo <= c <= NameClass[0].hi; }
    else if 'A' <= c <= 'Z' { assert NameClass[1].lo <= c <= NameClass[1].hi; }
    else if '0' <= c <= '9' { assert NameClass[2].lo <= c <= NameClass[2].hi; }
    else if c == ' ' { assert NameClass[3].lo <= c <= NameClass[3].hi; }
  }

  lemma DescriptionClassIsDescriptionChar(c: char)
    ensures InClass(c, DescriptionClass) <==> IsDescriptionChar(c)
  {
    var cls := DescriptionClass;
    if 'a' <= c <= 'z' { assert cls[0].lo <= c <= cls[0].hi; }
    else if 'A' <= c <= 'Z' { assert cls[1].lo <= c <= cls[1].hi; }
    else if '0' <= c <= '9' { assert cls[2].lo <= c <= cls[2].hi; }
    else if c == ',' { assert cls[3].lo <= c <= cls[3].hi; }
    else if c == ':' { assert cls[4].lo <= c <= cls[4].hi; }
    else if c == '.' { assert cls[5].lo <= c <= cls[5].hi; }
    else if c == '-' { assert cls[6].lo <= c <= cls[6].hi; }
    else if c == ')' { assert cls[7].lo <= c <= cls[7].hi; }
    else if c == '(' { assert cls[8].lo <= c <= cls[8].hi; }
    else if c == ' ' { assert cls[9].lo <= c <= cls[9].hi; }
  }

  /** The name pattern accepts exactly the strings of the name rule. */
  lemma NamePatternMatches(s: string)
    ensures Matches(NamePattern, s) <==> ValidName(s)
  {
    RepeatMatches(NameClass, 4, Some(64), s);
    forall i | 0 <= i < |s| { NameClassIsNameChar(s[i]); }
  }

  /** The description pattern accepts exactly the strings of the description rule, the empty one included. */
  lemma DescriptionPatternMatches(s: string)
    ensures Matches(DescriptionPattern, s) <==> ValidDescription(s)
  {
    RepeatMatches(DescriptionClass, 0, Some(256), s);
    forall i | 0 <= i < |s| { DescriptionClassIsDescriptionChar(s[i]); }
  }

  // ---------------------------------------------------------------- checks

  /** The three `IllegalArgumentException`s `createArticle` can throw. */
  datatype ArticleError = NullName | InvalidName | InvalidDescription {
    function Message(): string {
      match this
      case NullName => "Invalid name (null)!"
      case InvalidName => "Invalid name!"
      case InvalidDescription => "Invalid description!"
    }
  }

  /** What the article service has been asked to create: the name and description as the caller passed them. */
  datatype Article = Article(name: string, description: Option<string>)

  /**
   * The outcome of `createArticle`'s checks in source order: the null check on
   * the name, the name pattern, then (only for a non-null description) the
   * description pattern. Both patterns see the normalised string.
   */
  function CheckArticle(normalize: string -> string, name: Option<string>, description: Option<string>): (r: Outcome<ArticleError>)
    ensures r == Fail(NullName) <==> name.None?
    ensures r == Fail(InvalidDescription) ==>
              name.Some? && Matches(NamePattern, normalize(name.value)) && description.Some?
  {
    if name.None? then Fail(NullName)
    else if !Matches(NamePattern, normalize(name.value)) then Fail(InvalidName)
    else if description.Some? && !Matches(DescriptionPattern, normalize(description.value)) then Fail(InvalidDescription)
    else Pass
  }

  /** The checks pass exactly when the name is present and valid and the description is absent or valid. */
  lemma CheckArticlePasses(normalize: string -> string, name: Option<string>, description: Option<string>)
    ensures CheckArticle(normalize, name, description) == Pass <==>
              name.Some? && ValidName(normalize(name.value)) &&
              (description.None? || ValidDescription(normalize(description.value)))
  {
    if name.Some? { NamePatternMatches(normalize(name.value)); }
    if description.Some? { DescriptionPatternMatches(normalize(description.value)); }
  }

  /** A null name is reported as such, whatever the description. */
  lemma NullNameRejected(normalize: string -> string, description: Option<string>)
    ensures CheckArticle(normalize, None, description) == Fail(NullName)
    ensures CheckArticle(normalize, None, description).error.Message() == "Invalid name (null)!"
  {
  }

  /** A present name that breaks the name rule is rejected with "Invalid name!", whatever the description. */
  lemma InvalidNameRejected(normalize: string -> string, name: string, description: Option<string>)
    ensures !ValidName(normalize(name)) <==> CheckArticle(normalize, Some(name), description) == Fail(InvalidName)
  {
    NamePatternMatches(normalize(name));
  }

  /** A null description never causes a rejection: the outcome depends on the name alone. */
  lemma NullDescriptionAccepted(normalize: string -> string, name: string)
    ensures CheckArticle(normalize, Some(name), None) == Pass <==> ValidName(normalize(name))
  {
    NamePatternMatches(normalize(name));
  }

  /** With a valid name, a present description is rejected exactly when it breaks the description rule. */
  lemma DescriptionRule(normalize: string -> string, name: string, description: string)
    requires ValidName(normalize(name))
    ensures CheckArticle(normalize, Some(name), Some(description)) ==
              if ValidDescription(normalize(description)) then Pass else Fail(InvalidDescription)
  {
    NamePatternMatches(normalize(name));
    DescriptionPatternMatches(normalize(description));
  }

  /** An empty description (one that normalises to "") is accepted. */
  lemma EmptyDescriptionAccepted(normalize: string -> string, name: string, description: string)
    requires ValidName(normalize(name)) && normalize(description) == ""
    ensures CheckArticle(normalize, Some(name), Some(description)) == Pass
  {
    CheckArticlePasses(normalize, Some(name), Some(description));
  }

  /** The name is checked first: when both name and description are invalid, the name error is the one raised. */
  lemma NameCheckedFirst(normalize: string -> string, name: string, description: string)
    requires !ValidName(normalize(name)) && !ValidDescription(normalize(description))
    ensures CheckArticle(normalize, Some(name), Some(description)) == Fail(InvalidName)
  {
    NamePatternMatches(normalize(name));
  }

  // ---------------------------------------------------------------- objects

  /**
   * The wrapped service. The interface `ArticleService` has one method and its
   * only implementation prints its arguments; here the delegate records every
   * call it receives, so that what the proxy forwards becomes observable.
   */
  class ArticleService {
    var created: seq<Article>

    constructor ()
      ensures created == []
    {
      created := [];
    }

    method CreateArticle(name: string, description: Option<string>)
      modifies this
      ensures created == old(created) + [Article(name, description)]
    {
      created := created + [Article(name, description)];
    }
  }

  /** The message of the constructor's `IllegalArgumentException`. */
  const NullImplMessage := "ArticleService implementation cannot be null"

  class ArticleServiceValidator {
    const impl: ArticleService
    const normalize: string -> string

    /** The constructor proper, for a delegate already known to be non-null; see `NewArticleServiceValidator` for the null check. */
    constructor (impl: ArticleService, normalize: string -> string)
      ensures this.impl == impl && this.normalize == normalize
    {
      this.impl := impl;
      this.normalize := normalize;
    }

    /**
     * Validates, then delegates. The delegate receives the ORIGINAL name and
     * description (not the normalised ones), exactly once, and only when every
     * check passes; on a rejection its log is untouched.
     */
    method CreateArticle(name: Option<string>, description: Option<string>) returns (outcome: Outcome<ArticleError>)
      modifies impl
      ensures outcome == CheckArticle(normalize, name, description)
      ensures impl.created ==
                if outcome.Pass? then old(impl.created) + [Article(name.value, description)] else old(impl.created)
    {
      if name.None? {
        return Fail(NullName);
      }
      if !Matches(NamePattern, normalize(name.value)) {
        return Fail(InvalidName);
      }
      if description.Some? {
        if !Matches(DescriptionPattern, normalize(description.value)) {
          return Fail(InvalidDescription);
        }
      }
      impl.CreateArticle(name.value, description);
      outcome := Pass;
    }
  }

  /** `new ArticleServiceValidator(impl)`: a null delegate is refused, any other is kept as it is. */
  method NewArticleServiceValidator(impl: ArticleService?, normalize: string -> string)
      returns (r: Result<ArticleServiceValidator, string>)
    ensures r.Failure? <==> impl == null
    ensures r.Failure? ==> r.error == NullImplMessage
    ensures r.Success? ==> fresh(r.value) && r.value.impl == impl && r.value.normalize == normalize
  {
    if impl == null {
      return Failure(NullImplMessage);
    }
    var v := new ArticleServiceValidator(impl, normalize);
    r := Success(v);
  }

  // ---------------------------------------------------------------- the demonstration in main

  /** The identity, which is what NFKC is on the ASCII strings of the demonstration. */
  function AsciiNormalize(s: string): string { s }

  /** The demonstration's name obeys the name rule. */
  lemma DemoNameIsValid()
    ensures ValidName("Valid Name")
  {
  }

  /** The demonstration's first description obeys the description rule. */
  lemma DemoDescriptionIsValid()
    ensures ValidDescription("This is a valid description.")
  {
  }

  /** "Valid Name" with "This is a valid description." passes every check. */
  lemma DemoValidArticle(normalize: string -> string)
    requires normalize("Valid Name") == "Valid Name"
    requires normalize("This is a valid description.") == "This is a valid description."
    ensures CheckArticle(normalize, Some("Valid Name"), Some("This is a valid description.")) == Pass
  {
    DemoNameIsValid();
    DemoDescriptionIsValid();
    CheckArticlePasses(normalize, Some("Valid Name"), Some("This is a valid description."));
  }

  /** "Bad" has only three characters, so it is rejected as an invalid name. */
  lemma DemoShortName(normalize: string -> string)
    requires normalize("Bad") == "Bad"
    ensures CheckArticle(normalize, Some("Bad"), Some("Valid description")) == Fail(InvalidName)
  {
    NamePatternMatches("Bad");
  }

  /** A description with '$' and '!' is rejected as an invalid description. */
  lemma DemoBadDescription(normalize: string -> string)
    requires normalize("Valid Name") == "Valid Name"
    requires normalize("Invalid description with too many invalid characters $$$$!!!") ==
             "Invalid description with too many invalid characters $$$$!!!"
    ensures CheckArticle(normalize, Some("Valid Name"),
                         Some("Invalid description with too many invalid characters $$$$!!!")) == Fail(InvalidDescription)
  {
    var d := "Invalid description with too many invalid characters $$$$!!!";
    assert !IsDescriptionChar(d[54]);
    DemoNameIsValid();
    DescriptionRule(normalize, "Valid Name", d);
  }

  /**
   * The three calls of the demonstration's `main`, through a validator around a
   * fresh recording service: the first is forwarded, the other two are rejected
   * with the name error and the description error, and the service ends up with
   * the first article only.
   */
  method ProxyDemo() returns (outcomes: seq<Outcome<ArticleError>>, log: seq<Article>)
    ensures outcomes == [Pass, Fail(InvalidName), Fail(InvalidDescription)]
    ensures log == [Article("Valid Name", Some("This is a valid description."))]
  {
    var realService := new ArticleService();
    var created := NewArticleServiceValidator(realService, AsciiNormalize);
    var proxy := created.value;
    DemoValidArticle(AsciiNormalize);
    DemoShortName(AsciiNormalize);
    DemoBadDescription(AsciiNormalize);
    var first := proxy.CreateArticle(Some("Valid Name"), Some("This is a valid description."));
    var second := proxy.CreateArticle(Some("Bad"), Some("Valid description"));
    var third := proxy.CreateArticle(Some("Valid Name"), Some("Invalid description with too many invalid characters $$$$!!!"));
    outcomes := [first, second, third];
    log := realService.created;
  }
}
