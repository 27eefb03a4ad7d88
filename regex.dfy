/**
 * The fragment of java.util.regex that the validators use: character classes
 * made of ranges, a class repeated between a minimum and an optional maximum
 * number of times (`[..]{m,n}`, `[..]{m,}`, `[..]+`), literal characters and
 * concatenation. `Matches` is the semantics of `Matcher.matches()`: the
 * pattern must match the WHOLE input, which is what the `^...$` anchors of the
 * source patterns ask for as well.
 */
module Regex {
  import opened Wrappers

  /** One range `lo-hi` of a character class; a single character is `Range(c, c)`. */
  datatype Range = Range(lo: char, hi: char)

  /** A bracketed class `[...]`: the union of its ranges. */
  type CharClass = seq<Range>

  predicate InClass(c: char, cls: CharClass) {
    exists i :: 0 <= i < |cls| && cls[i].lo <= c <= cls[i].hi
  }

  /** Every character of `s` belongs to `cls`. */
  predicate AllInClass(s: string, cls: CharClass) {
    forall i :: 0 <= i < |s| ==> InClass(s[i], cls)
  }

  datatype Regex =
    | Lit(c: char)                                          // a literal character, or an escaped one such as `\.`
    | Repeat(cls: CharClass, min: nat, max: Option<nat>)    // `cls{min,max}`; `max == None` is `{min,}`
    | Concat(left: Regex, right: Regex)

  /** `cls+` */
  function Plus(cls: CharClass): Regex {
    Repeat(cls, 1, None)
  }

  /** The length of the shortest string a pattern can match. */
  function MinLength(r: Regex): nat {
    match r
    case Lit(_) => 1
    case Repeat(_, min, _) => min
    case Concat(a, b) => MinLength(a) + MinLength(b)
  }

  /**
   * Full-match semantics. A repetition is unfolded one character at a time,
   * the way a regex engine consumes its input: `cls{m,n}` matches the empty
   * string exactly when m == 0, and otherwise a first character of the class
   * followed by a match of `cls{m-1,n-1}` (bounds not going below zero).
   * A concatenation matches when some split point lets both halves match.
   */
  predicate Matches(r: Regex, s: string)
    ensures Matches(r, s) ==> MinLength(r) <= |s|
    decreases |s|, r
  {
    match r
    case Lit(c) => s == [c]
    case Repeat(cls, min, max) =>
      if s == [] then min == 0
      else
        (max.None? || max.value > 0) && InClass(s[0], cls) &&
        Matches(Repeat(cls, if min > 0 then min - 1 else 0, if max.None? then None else Some(max.value - 1)), s[1..])
    case Concat(a, b) =>
      exists k :: 0 <= k <= |s| && Matches(a, s[..k]) && Matches(b, s[k..])
  }

  /** A repeated class matches exactly the strings of an allowed length all of whose characters are in the class. */
  lemma {:induction false} RepeatMatches(cls: CharClass, min: nat, max: Option<nat>, s: string)
    ensures Matches(Repeat(cls, min, max), s) <==>
              min <= |s| && (max.None? || |s| <= max.value) && AllInClass(s, cls)
    decreases |s|
  {
    if s != [] {
      var min' := if min > 0 then min - 1 else 0;
      var max' := if max.None? then None else Some(max.value - 1);
      if max.None? || max.value > 0 {
        RepeatMatches(cls, min', max', s[1..]);
        if AllInClass(s, cls) {
          assert AllInClass(s[1..], cls) by {
            forall i | 0 <= i < |s[1..]| ensures InClass(s[1..][i], cls) {
              assert s[1..][i] == s[i + 1];
            }
          }
        }
        if InClass(s[0], cls) && AllInClass(s[1..], cls) {
          assert AllInClass(s, cls) by {
            forall i | 0 <= i < |s| ensures InClass(s[i], cls) {
              if i > 0 { assert s[i] == s[1..][i - 1]; }
            }
          }
        }
      }
    }
  }

  /** A split point at which both halves match makes the concatenation match. */
  lemma ConcatIntro(a: Regex, b: Regex, s: string, k: nat)
    requires k <= |s| && Matches(a, s[..k]) && Matches(b, s[k..])
    ensures Matches(Concat(a, b), s)
  {
  }

  /** A match of a concatenation splits into matches of its halves. */
  lemma ConcatElim(a: Regex, b: Regex, s: string) returns (k: nat)
    requires Matches(Concat(a, b), s)
    ensures k <= |s| && Matches(a, s[..k]) && Matches(b, s[k..])
  {
    k :| 0 <= k <= |s| && Matches(a, s[..k]) && Matches(b, s[k..]);
  }
}
