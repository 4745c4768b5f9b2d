/**
 * The compressed SEO score `Factor:score|Factor:score|...` and its parser,
 * which projects the parsed factors onto the six canonical ones.
 */
module Helpers {
  import opened Wrappers
  import opened PhpStrings

  /** `PHP_INT_MAX` on a 64-bit build: `(int)` of a larger, still finite value saturates here. */
  const PhpIntMax: nat := 0x7FFF_FFFF_FFFF_FFFF

  /**
   * 2^1024 - 2^970, halfway between the largest finite double and 2^1024: the
   * least value that a digit string converts to the infinite double, to which
   * `(int)` gives 0.
   */
  const DoubleOverflow: nat := 0xffff_ffff_ffff_fc00_0000_0000_0000_0000_0000_0000_0000_0000_0000_0000_0000_0000_0000_0000_0000_0000_0000_0000_0000_0000_0000_0000_0000_0000_0000_0000_0000_0000_0000_0000_0000_0000_0000_0000_0000_0000_0000_0000_0000_0000_0000_0000_0000_0000_0000_0000_0000_0000_0000_0000_0000_0000_0000_0000_0000_0000_0000_0000_0000_0000

  /** The canonical factor codes, in the order of the result. */
  const CanonicalFactors: seq<string> := ["T", "DG", "I", "F", "A", "R"]

  /** The `InvalidArgumentException` thrown for a malformed segment, with that segment. */
  datatype ParseError = InvalidFactorFormat(factor: string)

  /** An ordered PHP array factor code => score. */
  type Scores = seq<(string, nat)>

  /**
   * `(int)` of a string of digits: its value when that fits; otherwise the string
   * is read as a double, which `(int)` caps at `PHP_INT_MAX` while finite and turns
   * into 0 once infinite.
   */
  function IntCast(digits: string): (n: nat)
    requires AllDigits(digits)
    ensures n <= PhpIntMax
    ensures DigitsValue(digits) <= PhpIntMax ==> n == DigitsValue(digits)
    ensures PhpIntMax < DigitsValue(digits) < DoubleOverflow ==> n == PhpIntMax
    ensures DigitsValue(digits) >= DoubleOverflow ==> n == 0
  {
    var v := DigitsValue(digits);
    if v <= PhpIntMax then v
    else if v < DoubleOverflow then PhpIntMax
    else 0
  }

  /**
   * `segment` is `name:digits`, possibly followed by one line feed: the strings
   * `/^([a-zA-Z]+):(\d+)$/` matches, since PCRE's `$` also matches before a
   * final line feed.
   */
  predicate FactorShape(segment: string, name: string, digits: string) {
    && name != [] && AllLetters(name)
    && digits != [] && AllDigits(digits)
    && (segment == name + ":" + digits || segment == name + ":" + digits + "\n")
  }

  /** `s` without one final line feed. */
  function StripFinalLineFeed(s: string): (r: string)
    ensures s == r || s == r + "\n"
    ensures s != [] && s[|s| - 1] == '\n' ==> r == s[..|s| - 1]
  {
    if s != [] && s[|s| - 1] == '\n' then s[..|s| - 1] else s
  }

  /** In a segment of factor shape the first `:` ends the name, and the digits follow it. */
  lemma ShapeSplitsAtColon(segment: string, name: string, digits: string)
    requires FactorShape(segment, name, digits)
    ensures ':' in segment && FirstIndexOf(segment, ':') == |name|
    ensures segment[..|name|] == name && StripFinalLineFeed(segment[|name| + 1..]) == digits
  {
    assert segment[|name|] == ':';
    forall i | 0 <= i < |name| ensures segment[i] != ':' {
      assert segment[i] == name[i];
      assert IsAsciiLetter(name[i]);
    }
    var rest := segment[|name| + 1..];
    if segment == name + ":" + digits {
      assert rest == digits;
      assert IsAsciiDigit(digits[|digits| - 1]);
    } else {
      assert rest == digits + "\n";
      assert rest[..|rest| - 1] == digits;
    }
  }

  /** `ShapeSplitsAtColon` for every way of reading `segment` as a factor. */
  lemma ShapesSplitAtColon(segment: string)
    ensures forall name, digits :: FactorShape(segment, name, digits) ==>
      ':' in segment && FirstIndexOf(segment, ':') == |name| &&
      segment[..|name|] == name && StripFinalLineFeed(segment[|name| + 1..]) == digits
  {
    forall name, digits | FactorShape(segment, name, digits)
      ensures ':' in segment && FirstIndexOf(segment, ':') == |name|
      ensures segment[..|name|] == name && StripFinalLineFeed(segment[|name| + 1..]) == digits
    {
      ShapeSplitsAtColon(segment, name, digits);
    }
  }

  /**
   * One segment against `/^([a-zA-Z]+):(\d+)$/`: the factor code and `(int)` of
   * its digits, or `None` when the segment does not match
   * (`ParseFactorMatchesShape` states which segments match).
   */
  function ParseFactor(segment: string): (r: Option<(string, nat)>)
    ensures r.Some? ==> r.value.0 != "" && AllLetters(r.value.0) && r.value.1 <= PhpIntMax
    ensures r.Some? ==> ':' in segment && r.value.0 == segment[..FirstIndexOf(segment, ':')]
  {
    if ':' !in segment then None
    else
      var k := FirstIndexOf(segment, ':');
      var name := segment[..k];
      var digits := StripFinalLineFeed(segment[k + 1..]);
      if name != [] && AllLetters(name) && digits != [] && AllDigits(digits)
      then Some((name, IntCast(digits)))
      else None
  }

  /** A string is its part before position `k`, the character there, and the rest. */
  lemma CutAt(s: string, k: nat)
    requires k < |s|
    ensures s == s[..k] + [s[k]] + s[k + 1..]
  {
  }

  /** A segment that matches has factor shape. */
  lemma MatchHasShape(segment: string)
    requires ParseFactor(segment).Some?
    ensures FactorShape(segment, ParseFactor(segment).value.0, StripFinalLineFeed(segment[FirstIndexOf(segment, ':') + 1..]))
  {
    var k := FirstIndexOf(segment, ':');
    var name := segment[..k];
    var rest := segment[k + 1..];
    var digits := StripFinalLineFeed(rest);
    CutAt(segment, k);
    if rest == digits {
      assert segment == name + ":" + digits;
    } else {
      assert segment == name + ":" + (digits + "\n");
      assert name + ":" + (digits + "\n") == name + ":" + digits + "\n";
    }
  }

  /**
   * A segment matches exactly when it has factor shape, and then it yields its
   * name and `(int)` of its digits.
   */
  lemma ParseFactorMatchesShape(segment: string)
    ensures ParseFactor(segment).Some? <==> exists name, digits :: FactorShape(segment, name, digits)
    ensures forall name, digits :: FactorShape(segment, name, digits) ==> ParseFactor(segment) == Some((name, IntCast(digits)))
  {
    ShapesSplitAtColon(segment);
    if ParseFactor(segment).Some? {
      MatchHasShape(segment);
    }
  }

  /** A segment of factor shape yields its name and `(int)` of its digits. */
  lemma ShapedFactorParses(segment: string, name: string, digits: string)
    requires FactorShape(segment, name, digits)
    ensures ParseFactor(segment) == Some((name, IntCast(digits)))
  {
    ShapeSplitsAtColon(segment, name, digits);
  }

  /** The digits `007` are worth 7. */
  lemma LeadingZerosValue()
    ensures DigitsValue("007") == 7
  {
    assert "007"[..2] == "00" && "00"[..1] == "0" && "0"[..0] == "";
  }

  /** Leading zeros are accepted and read as a decimal number. */
  lemma LeadingZerosAccepted()
    ensures ParseFactor("T:007") == Some(("T", 7))
  {
    assert "T:007" == "T" + ":" + "007";
    ShapedFactorParses("T:007", "T", "007");
    LeadingZerosValue();
  }

  /** One final line feed is accepted, as PCRE's `$` allows. */
  lemma FinalLineFeedAccepted()
    ensures ParseFactor("T:5\n") == Some(("T", 5))
  {
    assert "T:5\n" == "T" + ":" + "5" + "\n";
    ShapedFactorParses("T:5\n", "T", "5");
    assert DigitsValue("5") == 5 by {
      assert "5"[..0] == "";
    }
  }

  /** A second final line feed is not accepted. */
  lemma SecondLineFeedRejected()
    ensures ParseFactor("T:5\n\n").None?
  {
    var s := "T:5\n\n";
    assert s[1] == ':' && s[0] != ':';
    assert FirstIndexOf(s, ':') == 1;
    assert s[2..] == "5\n\n";
    assert StripFinalLineFeed(s[2..]) == "5\n";
    assert !IsAsciiDigit("5\n"[1]);
  }

  /**
   * A score too large for a finite double reads as 0: `(int)` turns the infinite
   * double into 0, so `T:` followed by 309 nines scores 0.
   */
  lemma OverflowingScoreIsZero(digits: string)
    requires digits != [] && AllDigits(digits) && DigitsValue(digits) >= DoubleOverflow
    ensures ParseFactor("T:" + digits) == Some(("T", 0))
  {
    assert "T:" + digits == "T" + ":" + digits;
    ShapedFactorParses("T:" + digits, "T", digits);
  }

  /** A score past `PHP_INT_MAX` but short of the double range reads as `PHP_INT_MAX`. */
  lemma LargeScoreSaturates(digits: string)
    requires digits != [] && AllDigits(digits) && PhpIntMax < DigitsValue(digits) < DoubleOverflow
    ensures ParseFactor("T:" + digits) == Some(("T", PhpIntMax))
  {
    assert "T:" + digits == "T" + ":" + digits;
    ShapedFactorParses("T:" + digits, "T", digits);
  }

  /** The fold of one `explode` piece into the parsed scores; the first bad segment is fatal. */
  function Absorb(acc: Result<map<string, nat>, ParseError>, segment: string): (r: Result<map<string, nat>, ParseError>)
    ensures acc.Failure? ==> r == acc
    ensures acc.Success? ==> (r.Failure? <==> segment != "" && ParseFactor(segment).None?)
    ensures r.Failure? && acc.Success? ==> r.error == InvalidFactorFormat(segment)
  {
    match acc
    case Failure(_) => acc
    case Success(score) =>
      if segment == "" then acc
      else match ParseFactor(segment)
        case None => Failure(InvalidFactorFormat(segment))
        case Some(factor) => Success(score[factor.0 := factor.1])
  }

  /** The scores parsed from the segments in order (the first loop of the parser). */
  function CollectScores(segments: seq<string>): (r: Result<map<string, nat>, ParseError>)
    ensures r.Success? ==> forall code :: code in r.value ==> code != "" && AllLetters(code) && r.value[code] <= PhpIntMax
    decreases |segments|
  {
    if segments == [] then Success(map[])
    else Absorb(CollectScores(segments[..|segments| - 1]), segments[|segments| - 1])
  }

  /** The score of `factor`, 0 when it was not given. */
  function ScoreOf(score: map<string, nat>, factor: string): (n: nat)
    ensures factor in score ==> n == score[factor]
    ensures factor !in score ==> n == 0
  {
    if factor in score then score[factor] else 0
  }

  /** The canonical projection: exactly the six canonical codes, in order, missing ones as 0. */
  function Project(score: map<string, nat>): (r: Scores)
    ensures |r| == |CanonicalFactors|
    ensures forall i :: 0 <= i < |r| ==> r[i] == (CanonicalFactors[i], ScoreOf(score, CanonicalFactors[i]))
  {
    seq(|CanonicalFactors|, i requires 0 <= i < |CanonicalFactors| => (CanonicalFactors[i], ScoreOf(score, CanonicalFactors[i])))
  }

  /** What `parseSeoScoreFromString` returns or throws. */
  function ParseSeoScore(seoScore: Option<string>): (r: Result<Scores, ParseError>)
    ensures r.Success? ==> |r.value| == |CanonicalFactors|
    ensures r.Success? ==> forall i :: 0 <= i < |r.value| ==> r.value[i].0 == CanonicalFactors[i]
  {
    if seoScore.None? then Success(Project(map[]))
    else match CollectScores(Explode(seoScore.value, '|'))
      case Failure(e) => Failure(e)
      case Success(score) => Success(Project(score))
  }

  /**
   * `Helpers::parseSeoScoreFromString`: parse every non-empty segment, throwing on the
   * first malformed one, then build the result key by key over the canonical codes.
   */
  method ParseSeoScoreFromString(seoScore: Option<string>) returns (r: Result<Scores, ParseError>)
    ensures r == ParseSeoScore(seoScore)
  {
    var score: map<string, nat> := map[];
    if seoScore.Some? {
      var factors := Explode(seoScore.value, '|');
      var i := 0;
      while i < |factors|
        invariant 0 <= i <= |factors|
        invariant CollectScores(factors[..i]) == Success(score)
      {
        var factor := factors[i];
        assert factors[..i + 1][..i] == factors[..i];
        assert CollectScores(factors[..i + 1]) == Absorb(Success(score), factor);
        if factor != "" {
          var parsed := ParseFactor(factor);
          if parsed.None? {
            FailureIsFinal(factors[..i + 1], factors[i + 1..]);
            assert factors[..i + 1] + factors[i + 1..] == factors;
            return Failure(InvalidFactorFormat(factor));
          }
          score := score[parsed.value.0 := parsed.value.1];
        }
        i := i + 1;
      }
      assert factors[..i] == factors;
    }
    var result: Scores := [];
    var j := 0;
    while j < |CanonicalFactors|
      invariant 0 <= j <= |CanonicalFactors|
      invariant result == Project(score)[..j]
    {
      var key := CanonicalFactors[j];
      assert Project(score)[..j + 1] == Project(score)[..j] + [(key, ScoreOf(score, key))];
      result := result + [(key, if key in score then score[key] else 0)];
      j := j + 1;
    }
    assert Project(score)[..j] == Project(score);
    return Success(result);
  }

  /** One more segment is absorbed into the scores collected so far. */
  lemma CollectStep(segments: seq<string>, segment: string)
    ensures CollectScores(segments + [segment]) == Absorb(CollectScores(segments), segment)
  {
    var all := segments + [segment];
    assert all[..|all| - 1] == segments && all[|all| - 1] == segment;
  }

  /** Once a segment has failed, later segments do not change the outcome. */
  lemma {:induction false} FailureIsFinal(done: seq<string>, later: seq<string>)
    requires CollectScores(done).Failure?
    ensures CollectScores(done + later) == CollectScores(done)
    decreases |later|
  {
    if later != [] {
      var init := later[..|later| - 1];
      var last := later[|later| - 1];
      assert done + later == (done + init) + [last];
      FailureIsFinal(done, init);
      CollectStep(done + init, last);
    } else {
      assert done + later == done;
    }
  }

  /** An empty piece between the segments is skipped. */
  lemma {:induction false} EmptySegmentSkipped(before: seq<string>, after: seq<string>)
    ensures CollectScores(before + [""] + after) == CollectScores(before + after)
    decreases |after|
  {
    if after == [] {
      assert before + [""] + after == before + [""];
      assert before + after == before;
      CollectStep(before, "");
    } else {
      var init := after[..|after| - 1];
      var last := after[|after| - 1];
      assert before + [""] + after == (before + [""] + init) + [last];
      assert before + after == (before + init) + [last];
      EmptySegmentSkipped(before, init);
      CollectStep(before + [""] + init, last);
      CollectStep(before + init, last);
    }
  }

  /** A null score and an empty score both give six zeros. */
  lemma NullOrEmptyIsAllZero()
    ensures ParseSeoScore(None) == ParseSeoScore(Some(""))
    ensures ParseSeoScore(None).Success?
    ensures forall i :: 0 <= i < |ParseSeoScore(None).value| ==> ParseSeoScore(None).value[i].1 == 0
  {
    assert Explode("", '|') == [""];
    assert CollectScores([""]) == Absorb(CollectScores([]), "");
  }

  /** A doubled separator parses like a single one: the empty piece between them is skipped. */
  lemma DoubledSeparatorSkipped(a: string, b: string)
    ensures ParseSeoScore(Some(a + "||" + b)) == ParseSeoScore(Some(a + "|" + b))
  {
    var c := [] + ['|'] + b;
    assert a + "||" + b == a + ['|'] + c;
    assert a + "|" + b == a + ['|'] + b;
    ExplodeAround(a, c, '|');
    ExplodeAround([], b, '|');
    assert Explode([], '|') == [""];
    ExplodeAround(a, b, '|');
    assert Explode(a + "||" + b, '|') == Explode(a, '|') + [""] + Explode(b, '|');
    EmptySegmentSkipped(Explode(a, '|'), Explode(b, '|'));
  }

  /** A trailing separator parses like none. */
  lemma TrailingSeparatorSkipped(a: string)
    ensures ParseSeoScore(Some(a + "|")) == ParseSeoScore(Some(a))
  {
    ExplodeTrailingSeparator(a, '|');
    assert a + "|" == a + ['|'];
    EmptySegmentSkipped(Explode(a, '|'), []);
    assert Explode(a, '|') + [""] + [] == Explode(a, '|') + [""];
    assert Explode(a, '|') + [] == Explode(a, '|');
  }

  /**
   * The fold fails exactly when some non-empty segment is malformed, and then with
   * the first such segment.
   */
  lemma {:induction false} CollectFailsOnMalformed(segments: seq<string>)
    ensures CollectScores(segments).Failure? <==>
      exists i :: 0 <= i < |segments| && segments[i] != "" && ParseFactor(segments[i]).None?
    ensures CollectScores(segments).Failure? ==>
      exists i :: 0 <= i < |segments| && segments[i] != "" && ParseFactor(segments[i]).None? &&
        CollectScores(segments).error == InvalidFactorFormat(segments[i]) &&
        forall j :: 0 <= j < i ==> segments[j] == "" || ParseFactor(segments[j]).Some?
    decreases |segments|
  {
    if segments != [] {
      var init := segments[..|segments| - 1];
      CollectFailsOnMalformed(init);
      forall i | 0 <= i < |init| ensures init[i] == segments[i] { }
    }
  }

  /** A score string whose segments are all empty or well formed never fails. */
  lemma WellFormedNeverFails(s: string)
    requires forall i :: 0 <= i < |Explode(s, '|')| ==> Explode(s, '|')[i] == "" || ParseFactor(Explode(s, '|')[i]).Some?
    ensures ParseSeoScore(Some(s)).Success?
  {
    CollectFailsOnMalformed(Explode(s, '|'));
  }

  /** `T-34` has no colon and is rejected. */
  lemma MissingColonRejected()
    ensures ParseSeoScore(Some("T-34")) == Failure(InvalidFactorFormat("T-34"))
  {
    var s := "T-34";
    assert forall i :: 0 <= i < |s| ==> s[i] != '|' && s[i] != ':';
    ExplodeWithoutSeparator(s, '|');
    assert ParseFactor(s) == None;
    assert CollectScores([s]) == Absorb(CollectScores([]), s);
  }

  /** The pattern does not match `34:T`: the part before the colon is not letters. */
  lemma DigitsBeforeColonUnmatched()
    ensures ParseFactor("34:T").None?
  {
    var s := "34:T";
    assert s[2] == ':' && s[0] != ':' && s[1] != ':';
    assert FirstIndexOf(s, ':') == 2;
    assert !IsAsciiLetter(s[..2][0]);
  }

  /** `34:T` has its digits before the colon and is rejected. */
  lemma DigitsBeforeColonRejected()
    ensures ParseSeoScore(Some("34:T")) == Failure(InvalidFactorFormat("34:T"))
  {
    var s := "34:T";
    DigitsBeforeColonUnmatched();
    assert '|' !in s by {
      assert forall i :: 0 <= i < |s| ==> s[i] != '|';
    }
    ExplodeWithoutSeparator(s, '|');
    CollectStep([], s);
    assert [] + [s] == [s];
  }

  /** Segment `segment` sets the score of factor `code`. */
  predicate Carries(segment: string, code: string) {
    segment != "" && ParseFactor(segment).Some? && ParseFactor(segment).value.0 == code
  }

  /** After a successful fold a factor code is present exactly when some segment carries it. */
  lemma {:induction false} PresentIffCarried(segments: seq<string>, score: map<string, nat>, code: string)
    requires CollectScores(segments) == Success(score)
    ensures code in score <==> exists i :: 0 <= i < |segments| && Carries(segments[i], code)
    decreases |segments|
  {
    if segments != [] {
      var init := segments[..|segments| - 1];
      var last := segments[|segments| - 1];
      var before := CollectScores(init);
      assert segments == init + [last];
      CollectStep(init, last);
      assert before.Success?;
      PresentIffCarried(init, before.value, code);
      CarriedSplit(init, last, code);
      assert Absorb(before, last) == Success(score);
      AbsorbKeys(before.value, last, score, code);
    }
  }

  /** Some segment of `init + [last]` carries `code` exactly when one of `init` or `last` does. */
  lemma CarriedSplit(init: seq<string>, last: string, code: string)
    ensures (exists i :: 0 <= i < |init + [last]| && Carries((init + [last])[i], code)) <==>
      (exists i :: 0 <= i < |init| && Carries(init[i], code)) || Carries(last, code)
  {
    forall i | 0 <= i < |init| ensures (init + [last])[i] == init[i] { }
    assert (init + [last])[|init|] == last;
  }

  /** One successful fold step adds the code its segment carries, and nothing else. */
  lemma AbsorbKeys(before: map<string, nat>, segment: string, score: map<string, nat>, code: string)
    requires Absorb(Success(before), segment) == Success(score)
    ensures code in score <==> code in before || Carries(segment, code)
  {
    if segment != "" {
      var f := ParseFactor(segment).value;
      assert score == before[f.0 := f.1];
    }
  }

  /**
   * After a successful fold the score of a factor is the one of the LAST segment
   * carrying it.
   */
  lemma {:induction false} LastOccurrenceWins(segments: seq<string>, score: map<string, nat>, i: nat)
    requires CollectScores(segments) == Success(score)
    requires i < |segments| && segments[i] != "" && ParseFactor(segments[i]).Some?
    requires forall j :: i < j < |segments| ==> !Carries(segments[j], ParseFactor(segments[i]).value.0)
    ensures ParseFactor(segments[i]).value.0 in score
    ensures score[ParseFactor(segments[i]).value.0] == ParseFactor(segments[i]).value.1
    decreases |segments|
  {
    var init := segments[..|segments| - 1];
    var last := segments[|segments| - 1];
    var before := CollectScores(init);
    assert before.Success?;
    if i < |init| {
      assert init[i] == segments[i];
      forall j | i < j < |init| ensures !Carries(init[j], ParseFactor(init[i]).value.0) {
        assert init[j] == segments[j];
      }
      LastOccurrenceWins(init, before.value, i);
      assert !Carries(last, ParseFactor(segments[i]).value.0);
    }
  }

  /** A factor code outside the canonical six does not change the projection. */
  lemma UnknownFactorDropped(score: map<string, nat>, code: string, value: nat)
    requires code !in CanonicalFactors
    ensures Project(score[code := value]) == Project(score)
  {
    forall i | 0 <= i < |CanonicalFactors|
      ensures ScoreOf(score[code := value], CanonicalFactors[i]) == ScoreOf(score, CanonicalFactors[i])
    {
      assert CanonicalFactors[i] != code;
    }
  }

  /** One segment in the stored form: `Factor:score`. */
  function FormatFactor(factor: (string, nat)): string {
    factor.0 + ":" + NatToDigits(factor.1)
  }

  /** The stored form of scores: the segments joined by `|`. */
  function FormatSeoScore(scores: Scores): string {
    Implode(seq(|scores|, i requires 0 <= i < |scores| => FormatFactor(scores[i])), '|')
  }

  /** A well-formed segment parses back to its factor code and score. */
  lemma ParseFormattedFactor(factor: (string, nat))
    requires factor.0 != "" && AllLetters(factor.0) && factor.1 <= PhpIntMax
    ensures ParseFactor(FormatFactor(factor)) == Some(factor)
  {
    var segment := FormatFactor(factor);
    var n := |factor.0|;
    assert segment[n] == ':';
    assert ':' in segment;
    forall i | 0 <= i < n ensures segment[i] != ':' {
      assert segment[i] == factor.0[i];
      assert IsAsciiLetter(factor.0[i]);
    }
    var k := FirstIndexOf(segment, ':');
    assert k == n;
    assert segment[..k] == factor.0;
    var digits := NatToDigits(factor.1);
    assert segment[k + 1..] == digits;
    assert IsAsciiDigit(digits[|digits| - 1]);
    DigitsValueOfNatToDigits(factor.1);
  }

  predicate WellFormedScores(scores: Scores) {
    forall i :: 0 <= i < |scores| ==> scores[i].0 != "" && AllLetters(scores[i].0) && scores[i].1 <= PhpIntMax
  }

  /** The map an ordered array of well-formed scores stands for (a later code overrides an earlier one). */
  function ScoresToMap(scores: Scores): map<string, nat>
    decreases |scores|
  {
    if scores == [] then map[]
    else ScoresToMap(scores[..|scores| - 1])[scores[|scores| - 1].0 := scores[|scores| - 1].1]
  }

  /** Parsing the segments of formatted scores rebuilds their map. */
  lemma {:induction false} CollectFormattedSegments(scores: Scores)
    requires WellFormedScores(scores)
    ensures CollectScores(seq(|scores|, i requires 0 <= i < |scores| => FormatFactor(scores[i]))) == Success(ScoresToMap(scores))
    decreases |scores|
  {
    var segments := seq(|scores|, i requires 0 <= i < |scores| => FormatFactor(scores[i]));
    if scores != [] {
      var init := scores[..|scores| - 1];
      var last := scores[|scores| - 1];
      var initSegments := seq(|init|, i requires 0 <= i < |init| => FormatFactor(init[i]));
      assert segments == initSegments + [FormatFactor(last)];
      CollectFormattedSegments(init);
      CollectStep(initSegments, FormatFactor(last));
      ParseFormattedFactor(last);
    }
  }

  /**
   * Round trip: the canonical six scores, written out in the stored form, parse
   * back to themselves.
   */
  lemma ParseFormatRoundTrip(scores: Scores)
    requires |scores| == |CanonicalFactors|
    requires forall i :: 0 <= i < |scores| ==> scores[i].0 == CanonicalFactors[i] && scores[i].1 <= PhpIntMax
    ensures ParseSeoScore(Some(FormatSeoScore(scores))) == Success(scores)
  {
    var segments := seq(|scores|, i requires 0 <= i < |scores| => FormatFactor(scores[i]));
    forall i | 0 <= i < |scores| ensures scores[i].0 != "" && AllLetters(scores[i].0) {
      assert scores[i].0 == CanonicalFactors[i];
    }
    forall i | 0 <= i < |segments| ensures '|' !in segments[i] {
      var digits := NatToDigits(scores[i].1);
      assert segments[i] == scores[i].0 + ":" + digits;
      forall j | 0 <= j < |segments[i]| ensures segments[i][j] != '|' {
        if j < |scores[i].0| {
          assert IsAsciiLetter(scores[i].0[j]);
        } else if j > |scores[i].0| {
          assert segments[i][j] == digits[j - |scores[i].0| - 1];
          assert IsAsciiDigit(digits[j - |scores[i].0| - 1]);
        }
      }
    }
    ExplodeImplode(segments, '|');
    CollectFormattedSegments(scores);
    var m := ScoresToMap(scores);
    forall i | 0 <= i < |scores| ensures ScoreOf(m, CanonicalFactors[i]) == scores[i].1 {
      forall j | 0 <= j < |scores| && j != i ensures scores[j].0 != scores[i].0 {
        CanonicalFactorsDistinct(i, j);
      }
      ScoresToMapAt(scores, i);
    }
    assert Project(m) == scores;
  }

  lemma CanonicalFactorsDistinct(i: nat, j: nat)
    requires i < |CanonicalFactors| && j < |CanonicalFactors| && i != j
    ensures CanonicalFactors[i] != CanonicalFactors[j]
  {
  }

  /** In the map of scores whose codes are distinct, each code has its own score. */
  lemma {:induction false} ScoresToMapAt(scores: Scores, i: nat)
    requires i < |scores|
    requires forall j :: 0 <= j < |scores| && j != i ==> scores[j].0 != scores[i].0
    ensures scores[i].0 in ScoresToMap(scores) && ScoresToMap(scores)[scores[i].0] == scores[i].1
    decreases |scores|
  {
    if i < |scores| - 1 {
      var init := scores[..|scores| - 1];
      ScoresToMapAt(init, i);
    }
  }
}
