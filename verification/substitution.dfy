/**
 The case-preserving Yale -> Fale substitution rule (`replaceYaleWithFale` in
 app.js, duplicated verbatim in tests/unit.test.js).

 The rule is modelled the way the code runs it: a case-insensitive fast-path
 test, then three global literal `replace` passes, each a left-to-right scan
 guarded by the negative lookahead `(?![^<>]*>)`. Next to it stands an
 independent pointwise description of the result (`RewrittenAt`), and the
 main theorem is that the two agree.
 */
module Substitution {

  /** The three literal spellings the rule rewrites, in the order its passes run. */
  datatype Variant = Upper | Capital | Lower

  function Target(v: Variant): string
  {
    match v
    case Upper => "YALE"
    case Capital => "Yale"
    case Lower => "yale"
  }

  function Replacement(v: Variant): string
  {
    match v
    case Upper => "FALE"
    case Capital => "Fale"
    case Lower => "fale"
  }

  /* ---------------------------------------------------------------------- */
  /* The lookahead guard                                                     */
  /* ---------------------------------------------------------------------- */

  /** The lookahead `(?![^<>]*>)` FAILS at position j exactly when this holds:
      reading from j, a '>' is met before any '<'. The text at j is then taken
      to lie inside a tag and the occurrence ending at j is not replaced. */
  predicate InsideTag(s: string, j: nat)
    decreases |s| - j
  {
    j < |s| && (s[j] == '>' || (s[j] != '<' && InsideTag(s, j + 1)))
  }

  /** What `[^<>]*>` matches from j: a '>' at some e >= j with no angle bracket in between. */
  ghost predicate CloserAhead(s: string, j: nat)
  {
    exists e :: j <= e < |s| && s[e] == '>' && NoBracketIn(s, j, e)
  }

  ghost predicate NoBracketIn(s: string, j: nat, e: nat)
    requires j <= e <= |s|
  {
    forall m :: j <= m < e ==> s[m] != '<' && s[m] != '>'
  }

  /** The recursive guard is exactly the regular-expression lookahead. */
  lemma {:induction false} InsideTagIsLookahead(s: string, j: nat)
    ensures InsideTag(s, j) <==> CloserAhead(s, j)
    decreases |s| - j
  {
    if j < |s| {
      InsideTagIsLookahead(s, j + 1);
      if s[j] == '>' {
        assert NoBracketIn(s, j, j);
      } else if s[j] != '<' {
        if CloserAhead(s, j + 1) {
          var e :| j + 1 <= e < |s| && s[e] == '>' && NoBracketIn(s, j + 1, e);
          assert NoBracketIn(s, j, e);
        }
        if CloserAhead(s, j) {
          var e :| j <= e < |s| && s[e] == '>' && NoBracketIn(s, j, e);
          assert e != j;
          assert NoBracketIn(s, j + 1, e);
        }
      }
    }
  }

  /** Two strings with '<' and '>' at the same positions. */
  predicate SameBrackets(s: string, t: string)
  {
    && |s| == |t|
    && forall k :: 0 <= k < |s| ==> (s[k] == '<' <==> t[k] == '<') && (s[k] == '>' <==> t[k] == '>')
  }

  /** The guard only looks at where the angle brackets are. */
  lemma {:induction false} InsideTagSeesOnlyBrackets(s: string, t: string, j: nat)
    requires SameBrackets(s, t)
    ensures InsideTag(s, j) <==> InsideTag(t, j)
    decreases |s| - j
  {
    if j < |s| {
      InsideTagSeesOnlyBrackets(s, t, j + 1);
    }
  }

  /* ---------------------------------------------------------------------- */
  /* Occurrences                                                             */
  /* ---------------------------------------------------------------------- */

  /** The four-letter word w occurs in s starting at position k
      (every word the rule looks for or writes has four letters). */
  predicate Occurs(s: string, k: nat, w: string)
  {
    && |w| == 4 && k + 4 <= |s|
    && s[k] == w[0] && s[k + 1] == w[1] && s[k + 2] == w[2] && s[k + 3] == w[3]
  }

  /** An occurrence of Target(v) at k that the pass for v replaces. */
  predicate Hit(s: string, v: Variant, k: nat)
  {
    Occurs(s, k, Target(v)) && !InsideTag(s, k + 4)
  }

  /** No pass has anything left to replace in s. */
  predicate HitFree(s: string)
  {
    forall v: Variant, k: nat | k < |s| :: !Hit(s, v, k)
  }

  /** An occurrence starts with the target's initial: 'Y' or 'y'. */
  lemma OccursStartsWithInitial(s: string, v: Variant, k: nat, m: nat)
    requires Occurs(s, k, Target(v)) && m < 4
    ensures s[k + m] == Target(v)[m]
  {
  }

  /** Two spellings never occur at the same place, and no spelling occurs
      overlapping itself or another: the letter 'Y'/'y' is only ever the first
      letter of a target. */
  lemma OccurrencesApart(s: string, v: Variant, w: Variant, k: nat, d: nat)
    requires Occurs(s, k, Target(v)) && Occurs(s, k + d, Target(w))
    requires d < 4
    ensures d == 0 && v == w
  {
    OccursStartsWithInitial(s, w, k + d, 0);
    OccursStartsWithInitial(s, v, k, d);
    if d == 0 {
      OccursStartsWithInitial(s, w, k, 1);
      OccursStartsWithInitial(s, v, k, 1);
      OccursStartsWithInitial(s, w, k, 2);
      OccursStartsWithInitial(s, v, k, 2);
    }
  }

  /* ---------------------------------------------------------------------- */
  /* One global replace pass                                                 */
  /* ---------------------------------------------------------------------- */

  /** `String.prototype.replace` with the global regex Target(v)(?![^<>]*>):
      the output for s[i..], scanning left to right and resuming after each
      replaced occurrence. */
  function ReplaceFrom(s: string, v: Variant, i: nat): (r: string)
    requires i <= |s|
    ensures |r| == |s| - i
    ensures forall k :: i <= k < |s| ==> r[k - i] == (if Hit(s, v, k) then Replacement(v)[0] else s[k])
    decreases |s| - i
  {
    if |s| < i + 4 then
      s[i..]
    else if Occurs(s, i, Target(v)) && !InsideTag(s, i + 4) then
      var rest := ReplaceFrom(s, v, i + 4);
      forall k | i < k < i + 4
        ensures !Hit(s, v, k)
      {
        if Hit(s, v, k) {
          OccurrencesApart(s, v, v, i, k - i);
        }
      }
      Replacement(v) + rest
    else
      [s[i]] + ReplaceFrom(s, v, i + 1)
  }

  /** One whole pass of app.js:28, 29 or 30. */
  function ReplaceAll(s: string, v: Variant): (r: string)
    ensures |r| == |s|
    ensures forall k :: 0 <= k < |s| ==> r[k] == (if Hit(s, v, k) then Replacement(v)[0] else s[k])
  {
    ReplaceFrom(s, v, 0)
  }

  /* ---------------------------------------------------------------------- */
  /* The reference description of the result                                 */
  /* ---------------------------------------------------------------------- */

  /** t is s with some 'Y' turned into 'F' and some 'y' into 'f', nothing else. */
  predicate Faded(s: string, t: string)
  {
    && |t| == |s|
    && forall k :: 0 <= k < |s| ==> t[k] == s[k] || (s[k] == 'Y' && t[k] == 'F') || (s[k] == 'y' && t[k] == 'f')
  }

  /** The character at k of the rule's result: the initial of every replaceable
      occurrence of any spelling becomes the replacement's initial. */
  function RewrittenAt(s: string, k: nat): char
    requires k < |s|
  {
    if Hit(s, Upper, k) || Hit(s, Capital, k) then 'F'
    else if Hit(s, Lower, k) then 'f'
    else s[k]
  }

  /** Fading touches only 'Y' and 'y', so every '<' and '>' stays where it was. */
  lemma FadedKeepsBrackets(s: string, t: string)
    requires Faded(s, t)
    ensures SameBrackets(s, t)
  {
  }

  /** Inside an occurrence, after its first letter, no occurrence of any spelling can start. */
  lemma NoOccurrenceWithin(s: string, v: Variant, k: nat, p: nat)
    requires Occurs(s, k, Target(v)) && k < p < k + 4
    ensures !Occurs(s, p, "YALE") && !Occurs(s, p, "Yale") && !Occurs(s, p, "yale")
  {
  }

  /** A pass for v leaves the replaceable occurrences of every other spelling as they were. */
  lemma PassKeepsOtherHits(s: string, v: Variant, w: Variant, k: nat)
    requires v != w
    ensures Hit(ReplaceAll(s, v), w, k) <==> Hit(s, w, k)
  {
    var t := ReplaceAll(s, v);
    FadedKeepsBrackets(s, t);
    InsideTagSeesOnlyBrackets(s, t, k + 4);
    if Occurs(s, k, Target(w)) {
      forall p | k < p < k + 4
        ensures !Hit(s, v, p)
      {
        NoOccurrenceWithin(s, w, k, p);
      }
    }
  }

  /** The three passes together, without the fast path. */
  function ThreePasses(s: string): (r: string)
    ensures |r| == |s|
    ensures forall k :: 0 <= k < |s| ==> r[k] == RewrittenAt(s, k)
  {
    var t1 := ReplaceAll(s, Upper);
    var t2 := ReplaceAll(t1, Capital);
    var t3 := ReplaceAll(t2, Lower);
    forall k: nat | k < |s|
      ensures t3[k] == RewrittenAt(s, k)
    {
      PassKeepsOtherHits(s, Upper, Capital, k);
      PassKeepsOtherHits(s, Upper, Lower, k);
      PassKeepsOtherHits(t1, Capital, Lower, k);
    }
    t3
  }

  /* ---------------------------------------------------------------------- */
  /* The fast path and the rule                                              */
  /* ---------------------------------------------------------------------- */

  /** ASCII upper-casing: the regex flag `i` without the `u` flag folds no
      non-ASCII character onto the letters of "yale". */
  function AsciiUpper(c: char): char
  {
    if 'a' <= c <= 'z' then (c as int - 32) as char else c
  }

  /** "yale" in any mixture of cases starts at k. */
  predicate FoldsAt(s: string, k: int)
  {
    && 0 <= k && k + 4 <= |s|
    && AsciiUpper(s[k]) == 'Y' && AsciiUpper(s[k + 1]) == 'A'
    && AsciiUpper(s[k + 2]) == 'L' && AsciiUpper(s[k + 3]) == 'E'
  }

  /** The fast-path test `text.match(/yale|Yale|YALE/i)`: it fails only on
      text where none of the three passes would find anything. */
  predicate MentionsTarget(s: string): (r: bool)
    ensures r ==> |s| >= 4
    ensures !r ==> HitFree(s)
  {
    forall v: Variant, k: nat | Hit(s, v, k)
      ensures 0 <= k <= |s| - 4 && FoldsAt(s, k)
    {
      HitIsMention(s, v, k);
    }
    exists k | 0 <= k <= |s| - 4 :: FoldsAt(s, k)
  }

  /** Every exact spelling is also a case-insensitive mention. */
  lemma HitIsMention(s: string, v: Variant, k: nat)
    requires Occurs(s, k, Target(v))
    ensures FoldsAt(s, k)
  {
    OccursStartsWithInitial(s, v, k, 0);
    OccursStartsWithInitial(s, v, k, 1);
    OccursStartsWithInitial(s, v, k, 2);
    OccursStartsWithInitial(s, v, k, 3);
  }

  /** `replaceYaleWithFale`: identity when nothing mentions the target, the three passes otherwise.
      The result is described character by character by RewrittenAt. */
  function Substitute(s: string): (r: string)
    ensures |r| == |s|
    ensures forall k :: 0 <= k < |s| ==> r[k] == RewrittenAt(s, k)
  {
    if !MentionsTarget(s) then
      s
    else
      ThreePasses(s)
  }

  /* ---------------------------------------------------------------------- */
  /* Properties of the rule                                                  */
  /* ---------------------------------------------------------------------- */

  /** The fast path is only a shortcut: the three passes give the same answer. */
  lemma FastPathIsShortcut(s: string)
    ensures Substitute(s) == ThreePasses(s)
  {
  }

  /** Length is kept; a character changes only where a replaceable occurrence
      starts, and then only 'Y' -> 'F' or 'y' -> 'f'; angle brackets stay put. */
  lemma ChangesOnlyInitials(s: string)
    ensures Faded(s, Substitute(s))
    ensures SameBrackets(s, Substitute(s))
    ensures forall k :: 0 <= k < |s| && Substitute(s)[k] != s[k] ==> Hit(s, Upper, k) || Hit(s, Capital, k) || Hit(s, Lower, k)
  {
  }

  /** Case fidelity: every replaceable YALE, Yale or yale becomes FALE, Fale or fale. */
  lemma CaseFidelity(s: string, v: Variant, k: nat)
    requires Hit(s, v, k)
    ensures Occurs(Substitute(s), k, Replacement(v))
  {
    NoOccurrenceWithin(s, v, k, k + 1);
    NoOccurrenceWithin(s, v, k, k + 2);
    NoOccurrenceWithin(s, v, k, k + 3);
  }

  /** Tag guard: an occurrence whose following text reaches '>' before '<' is left alone. */
  lemma TagGuardBlocks(s: string, v: Variant, k: nat)
    requires Occurs(s, k, Target(v)) && InsideTag(s, k + 4)
    ensures Occurs(Substitute(s), k, Target(v))
  {
    NoOccurrenceWithin(s, v, k, k + 1);
    NoOccurrenceWithin(s, v, k, k + 2);
    NoOccurrenceWithin(s, v, k, k + 3);
  }

  /** Mixed spellings such as "YaLe" are left untouched: only an exact YALE, Yale or yale can change. */
  lemma OnlyExactSpellingsChange(s: string, k: nat)
    requires k < |s|
    requires !Occurs(s, k, "YALE") && !Occurs(s, k, "Yale") && !Occurs(s, k, "yale")
    ensures Substitute(s)[k] == s[k]
  {
  }

  /** Turning initials into F/f never creates a replaceable occurrence: any
      occurrence in t was already one in s, with the same guard. */
  lemma FadingAddsNoHit(s: string, t: string, v: Variant, k: nat)
    requires Faded(s, t) && Hit(t, v, k)
    ensures Hit(s, v, k)
  {
    InsideTagSeesOnlyBrackets(s, t, k + 4);
  }

  lemma FadingKeepsHitFree(s: string, t: string)
    requires HitFree(s) && Faded(s, t)
    ensures HitFree(t)
  {
    forall v: Variant, k: nat | k < |t|
      ensures !Hit(t, v, k)
    {
      if Hit(t, v, k) {
        FadingAddsNoHit(s, t, v, k);
      }
    }
  }

  /** After the rule, nothing replaceable is left. */
  lemma ResultIsHitFree(s: string)
    ensures HitFree(Substitute(s))
  {
    var r := Substitute(s);
    forall v: Variant, k: nat | k < |r|
      ensures !Hit(r, v, k)
    {
      if Hit(r, v, k) {
        FadingAddsNoHit(s, r, v, k);
      }
    }
  }

  /** The fixed points of the rule are exactly the strings with nothing replaceable. */
  lemma FixedPointsAreHitFree(s: string)
    ensures Substitute(s) == s <==> HitFree(s)
  {
    if !HitFree(s) {
      var v: Variant, k: nat :| k < |s| && Hit(s, v, k);
      assert Substitute(s)[k] != s[k];
    } else {
      forall k | 0 <= k < |s|
        ensures Substitute(s)[k] == s[k]
      {
        assert !Hit(s, Upper, k) && !Hit(s, Capital, k) && !Hit(s, Lower, k);
      }
    }
  }

  /** Idempotence: applying the rule twice is applying it once. */
  lemma Idempotent(s: string)
    ensures Substitute(Substitute(s)) == Substitute(s)
  {
    ResultIsHitFree(s);
    FixedPointsAreHitFree(Substitute(s));
  }

  /** Without a case-insensitive "yale" the input comes back unchanged. */
  lemma UnchangedWithoutMention(s: string)
    requires !MentionsTarget(s)
    ensures Substitute(s) == s
  {
  }

  /* ---------------------------------------------------------------------- */
  /* Locality                                                                */
  /* ---------------------------------------------------------------------- */

  predicate NoBrackets(s: string)
  {
    '<' !in s && '>' !in s
  }

  /** Appending bracket-free text does not move the guard's verdict inside a. */
  lemma {:induction false} InsideTagAppend(a: string, b: string, j: nat)
    requires NoBrackets(b) && j <= |a|
    ensures InsideTag(a + b, j) <==> InsideTag(a, j)
    decreases |a| - j
  {
    if j < |a| {
      InsideTagAppend(a, b, j + 1);
    } else {
      InsideTagOfBracketFree(a + b, j);
    }
  }

  lemma {:induction false} InsideTagOfBracketFree(s: string, j: nat)
    requires forall m :: j <= m < |s| ==> s[m] != '<' && s[m] != '>'
    ensures !InsideTag(s, j)
    decreases |s| - j
  {
    if j < |s| {
      InsideTagOfBracketFree(s, j + 1);
    }
  }

  /** The guard reads the text that follows, so prefixing text changes nothing for b. */
  lemma {:induction false} InsideTagPrepend(a: string, b: string, j: nat)
    ensures InsideTag(a + b, |a| + j) <==> InsideTag(b, j)
    decreases |b| - j
  {
    if j < |b| {
      InsideTagPrepend(a, b, j + 1);
    }
  }

  /** Left of a cut that no occurrence straddles, the replaceable occurrences are those of the left piece. */
  lemma HitLeftOfCut(a: string, b: string, v: Variant, k: nat)
    requires NoBrackets(b)
    requires |b| == 0 || b[0] !in "ALEale"
    requires k < |a|
    ensures Hit(a + b, v, k) <==> Hit(a, v, k)
  {
    var s := a + b;
    if k + 4 <= |a| {
      InsideTagAppend(a, b, k + 4);
      assert s[k] == a[k] && s[k + 1] == a[k + 1] && s[k + 2] == a[k + 2] && s[k + 3] == a[k + 3];
    }
  }

  /** Right of a cut, the replaceable occurrences are those of the right piece. */
  lemma HitRightOfCut(a: string, b: string, v: Variant, k: nat)
    requires k < |b|
    ensures Hit(a + b, v, |a| + k) <==> Hit(b, v, k)
  {
    var s := a + b;
    InsideTagPrepend(a, b, k + 4);
    if k + 4 <= |b| {
      assert s[|a| + k] == b[k] && s[|a| + k + 1] == b[k + 1] && s[|a| + k + 2] == b[k + 2] && s[|a| + k + 3] == b[k + 3];
    }
  }

  lemma RewrittenLeftOfCut(a: string, b: string, k: nat)
    requires CleanCut(b)
    requires k < |a|
    ensures RewrittenAt(a + b, k) == RewrittenAt(a, k)
  {
    HitLeftOfCut(a, b, Upper, k);
    HitLeftOfCut(a, b, Capital, k);
    HitLeftOfCut(a, b, Lower, k);
  }

  lemma RewrittenRightOfCut(a: string, b: string, k: nat)
    requires k < |b|
    ensures RewrittenAt(a + b, |a| + k) == RewrittenAt(b, k)
  {
    HitRightOfCut(a, b, Upper, k);
    HitRightOfCut(a, b, Capital, k);
    HitRightOfCut(a, b, Lower, k);
  }

  /** The rule works piecewise across a cut that no occurrence can straddle:
      the right piece has no angle bracket and does not begin with a letter
      that can follow the initial of a target. */
  lemma SubstituteConcat(a: string, b: string)
    requires CleanCut(b)
    ensures Substitute(a + b) == Substitute(a) + Substitute(b)
  {
    SubstituteLeftOfCut(a, b);
    SubstituteRightOfCut(a, b);
    Halves(Substitute(a + b), Substitute(a), Substitute(b));
  }

  lemma Halves(r: string, x: string, y: string)
    requires |x| <= |r| && r[..|x|] == x && r[|x|..] == y
    ensures r == x + y
  {
    assert r == r[..|x|] + r[|x|..];
  }

  lemma SubstituteLeftOfCut(a: string, b: string)
    requires CleanCut(b)
    ensures Substitute(a + b)[..|a|] == Substitute(a)
  {
    var r := Substitute(a + b);
    var ra := Substitute(a);
    forall k | 0 <= k < |a|
      ensures r[k] == ra[k]
    {
      RewrittenLeftOfCut(a, b, k);
    }
  }

  lemma SubstituteRightOfCut(a: string, b: string)
    ensures Substitute(a + b)[|a|..] == Substitute(b)
  {
    var r := Substitute(a + b);
    var rb := Substitute(b);
    forall k | 0 <= k < |b|
      ensures r[|a| + k] == rb[k]
    {
      RewrittenRightOfCut(a, b, k);
    }
  }

  /** s lacks one of the letters of "yale", in both cases. */
  predicate LacksLetter(s: string)
  {
    || ('y' !in s && 'Y' !in s) || ('a' !in s && 'A' !in s)
    || ('l' !in s && 'L' !in s) || ('e' !in s && 'E' !in s)
  }

  /** Text lacking a letter of "yale" mentions no spelling of it and is returned unchanged. */
  lemma LetterMissingIsQuiet(s: string)
    requires LacksLetter(s)
    ensures !MentionsTarget(s)
    ensures Substitute(s) == s
  {
    forall k | 0 <= k <= |s| - 4
      ensures !FoldsAt(s, k)
    {
      assert s[k] in s && s[k + 1] in s && s[k + 2] in s && s[k + 3] in s;
    }
    UnchangedWithoutMention(s);
  }

  /** Each spelling on its own becomes its replacement. */
  lemma TargetAloneIsReplaced(v: Variant)
    ensures Substitute(Target(v)) == Replacement(v)
  {
    CaseFidelity(Target(v), v, 0);
  }

  /** Text shorter than the target is returned unchanged. */
  lemma UnchangedWhenShort(s: string)
    requires |s| < 4
    ensures Substitute(s) == s
  {
  }

  /** A mention inside a piece is a mention of any text around it. */
  lemma MentionInside(a: string, b: string, c: string)
    requires MentionsTarget(b)
    ensures MentionsTarget(a + b + c)
  {
    var k :| 0 <= k <= |b| - 4 && FoldsAt(b, k);
    var s := a + b + c;
    assert s[|a| + k] == b[k] && s[|a| + k + 1] == b[k + 1] && s[|a| + k + 2] == b[k + 2] && s[|a| + k + 3] == b[k + 3];
    assert FoldsAt(s, |a| + k);
  }

  /** Fading is compatible with concatenation. */
  lemma FadedConcat(a: string, b: string, c: string, d: string)
    requires Faded(a, b) && Faded(c, d)
    ensures Faded(a + c, b + d)
  {
    forall k | 0 <= k < |a + c|
      ensures (b + d)[k] == (a + c)[k] || ((a + c)[k] == 'Y' && (b + d)[k] == 'F') || ((a + c)[k] == 'y' && (b + d)[k] == 'f')
    {
      if k >= |a| {
        assert (a + c)[k] == c[k - |a|] && (b + d)[k] == d[k - |a|];
      }
    }
  }

  lemma FadedTrans(a: string, b: string, c: string)
    requires Faded(a, b) && Faded(b, c)
    ensures Faded(a, c)
  {
  }

  /* ---------------------------------------------------------------------- */
  /* Text in pieces                                                          */
  /* ---------------------------------------------------------------------- */

  /** The pieces written one after the other. */
  function Join(ps: seq<string>): string
  {
    if |ps| == 0 then "" else Join(ps[..|ps| - 1]) + ps[|ps| - 1]
  }

  /** A cut just before the piece p is one no occurrence and no guard can
      straddle: p has no angle bracket and does not begin with a letter that
      can follow the initial of a target. */
  predicate CleanCut(p: string)
  {
    NoBrackets(p) && (|p| == 0 || p[0] !in "ALEale")
  }

  predicate CleanCuts(ps: seq<string>)
  {
    forall i :: 0 < i < |ps| ==> CleanCut(ps[i])
  }

  /** Across clean cuts, the rule rewrites every piece on its own. */
  lemma {:induction false} SubstituteJoin(ps: seq<string>)
    requires CleanCuts(ps)
    ensures Substitute(Join(ps)) == Join(seq(|ps|, i requires 0 <= i < |ps| => Substitute(ps[i])))
  {
    var rs := seq(|ps|, i requires 0 <= i < |ps| => Substitute(ps[i]));
    if |ps| == 1 {
      assert Join(ps) == ps[0];
    } else if |ps| > 1 {
      var init := ps[..|ps| - 1];
      SubstituteJoin(init);
      SubstituteConcat(Join(init), ps[|ps| - 1]);
      assert rs[..|rs| - 1] == seq(|init|, i requires 0 <= i < |init| => Substitute(init[i]));
    }
  }

  /** r is what the rule makes of the piece p on its own: p is one of the
      spellings and r its replacement, or p cannot hold one and r is p. */
  predicate PieceBecomes(p: string, r: string)
  {
    || (p == "YALE" && r == "FALE") || (p == "Yale" && r == "Fale") || (p == "yale" && r == "fale")
    || ((LacksLetter(p) || |p| < 4) && r == p)
  }

  lemma PieceRewrite(p: string, r: string)
    requires PieceBecomes(p, r)
    ensures Substitute(p) == r
  {
    if p == "YALE" {
      TargetAloneIsReplaced(Upper);
    } else if p == "Yale" {
      TargetAloneIsReplaced(Capital);
    } else if p == "yale" {
      TargetAloneIsReplaced(Lower);
    } else if LacksLetter(p) {
      LetterMissingIsQuiet(p);
    } else {
      UnchangedWhenShort(p);
    }
  }

  /** The pieces ps, each cut clean, become the pieces rs. */
  predicate PiecesBecome(ps: seq<string>, rs: seq<string>)
  {
    && |rs| == |ps|
    && forall i :: 0 <= i < |ps| ==> PieceBecomes(ps[i], rs[i]) && (i == 0 || CleanCut(ps[i]))
  }

  /** The rule on text given as pieces with clean cuts, from what it makes of each piece. */
  lemma JoinByPieces(ps: seq<string>, rs: seq<string>)
    requires PiecesBecome(ps, rs)
    ensures Substitute(Join(ps)) == Join(rs)
  {
    SubstituteJoin(ps);
    forall i | 0 <= i < |ps|
      ensures Substitute(ps[i]) == rs[i]
    {
      PieceRewrite(ps[i], rs[i]);
    }
    assert rs == seq(|ps|, i requires 0 <= i < |ps| => Substitute(ps[i]));
  }
}
