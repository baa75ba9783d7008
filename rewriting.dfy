/** The rewriting `getSanitizedExpression` performs (each allowed name, in list order, replaced
    as a substring by itself with a `$` in front) compared with the rewriting its purpose
    describes (a `$` in front of every piece of the split). They agree on every accepted
    condition in which `yearday` does not appear. */
module Rewriting {
  import opened Strings
  import opened Conditions

  // ---------------------------------------------------------------------------------------------
  // The whitelist: no allowed name occurs inside another one, except `day` inside `yearday`

  lemma NoNameInsideHour()
    ensures forall pat :: pat in AllowedVariables() && pat != "hour" ==> forall i :: !OccursAt(pat, "hour", i)
  {
    var t := "hour";
    AbsentUnlessAt(t, "day", {});
    AbsentUnlessAt(t, "week", {});
    AbsentUnlessAt(t, "wind", {});
    AbsentUnlessAt(t, "gust", {});
    AbsentUnlessAt(t, "rain", {3});
    AbsentUnlessAt(t, "down", {});
    MismatchAt(t, "up", 2, 1);
    AbsentUnlessAt(t, "up", {2});
  }

  lemma NoNameInsideMinute()
    ensures forall pat :: pat in AllowedVariables() && pat != "minute" ==> forall i :: !OccursAt(pat, "minute", i)
  {
    var t := "minute";
    AbsentUnlessAt(t, "hour", {});
    AbsentUnlessAt(t, "day", {});
    MismatchAt(t, "month", 0, 1);
    AbsentUnlessAt(t, "month", {0});
    AbsentUnlessAt(t, "week", {});
    AbsentUnlessAt(t, "wind", {});
    AbsentUnlessAt(t, "gust", {});
    AbsentUnlessAt(t, "rain", {});
    MismatchAt(t, "moved", 0, 1);
    AbsentUnlessAt(t, "moved", {0});
    AbsentUnlessAt(t, "down", {});
    MismatchAt(t, "up", 3, 1);
    AbsentUnlessAt(t, "up", {3});
  }

  lemma NoNameInsideDay()
    ensures forall pat :: pat in AllowedVariables() && pat != "day" ==> forall i :: !OccursAt(pat, "day", i)
  {
    var t := "day";
    AbsentUnlessAt(t, "up", {});
  }

  lemma NoNameInsideMonth()
    ensures forall pat :: pat in AllowedVariables() && pat != "month" ==> forall i :: !OccursAt(pat, "month", i)
  {
    var t := "month";
    AbsentUnlessAt(t, "hour", {4});
    AbsentUnlessAt(t, "day", {});
    AbsentUnlessAt(t, "week", {});
    AbsentUnlessAt(t, "wind", {});
    AbsentUnlessAt(t, "gust", {});
    AbsentUnlessAt(t, "rain", {});
    MismatchAt(t, "moved", 0, 2);
    AbsentUnlessAt(t, "moved", {0});
    AbsentUnlessAt(t, "down", {});
    AbsentUnlessAt(t, "up", {});
  }

  lemma NoNameInsideWeek()
    ensures forall pat :: pat in AllowedVariables() && pat != "week" ==> forall i :: !OccursAt(pat, "week", i)
  {
    var t := "week";
    AbsentUnlessAt(t, "hour", {});
    AbsentUnlessAt(t, "day", {});
    MismatchAt(t, "wind", 0, 1);
    AbsentUnlessAt(t, "wind", {0});
    AbsentUnlessAt(t, "gust", {});
    AbsentUnlessAt(t, "rain", {});
    AbsentUnlessAt(t, "down", {});
    AbsentUnlessAt(t, "up", {});
  }

  lemma NoNameInsideTemperature()
    ensures forall pat :: pat in AllowedVariables() && pat != "temperature" ==> forall i :: !OccursAt(pat, "temperature", i)
  {
    NoEarlierNameInsideTemperature();
    NoLaterNameInsideTemperature();
    assert AllowedVariables() == ["hour", "minute", "day", "month", "week", "yearday"] + ["temperature"]
                                 + ["wind", "gust", "radiation", "rain", "moved", "down", "up"];
  }

  lemma NoEarlierNameInsideTemperature()
    ensures forall pat :: pat in ["hour", "minute", "day", "month", "week", "yearday"] ==> forall i :: !OccursAt(pat, "temperature", i)
  {
    var t := "temperature";
    AbsentUnlessAt(t, "hour", {});
    MismatchAt(t, "minute", 2, 1);
    AbsentUnlessAt(t, "minute", {2});
    AbsentUnlessAt(t, "day", {});
    MismatchAt(t, "month", 2, 1);
    AbsentUnlessAt(t, "month", {2});
    AbsentUnlessAt(t, "week", {});
    AbsentUnlessAt(t, "yearday", {});
  }

  lemma NoLaterNameInsideTemperature()
    ensures forall pat :: pat in ["wind", "gust", "radiation", "rain", "moved", "down", "up"] ==> forall i :: !OccursAt(pat, "temperature", i)
  {
    var t := "temperature";
    AbsentUnlessAt(t, "wind", {});
    AbsentUnlessAt(t, "gust", {});
    AbsentUnlessAt(t, "radiation", {5, 9});
    MismatchAt(t, "rain", 5, 2);
    AbsentUnlessAt(t, "rain", {5, 9});
    MismatchAt(t, "moved", 2, 1);
    AbsentUnlessAt(t, "moved", {2});
    AbsentUnlessAt(t, "down", {});
    MismatchAt(t, "up", 8, 1);
    AbsentUnlessAt(t, "up", {8});
  }

  lemma NoNameInsideWind()
    ensures forall pat :: pat in AllowedVariables() && pat != "wind" ==> forall i :: !OccursAt(pat, "wind", i)
  {
    var t := "wind";
    AbsentUnlessAt(t, "hour", {});
    AbsentUnlessAt(t, "day", {3});
    MismatchAt(t, "week", 0, 1);
    AbsentUnlessAt(t, "week", {0});
    AbsentUnlessAt(t, "gust", {});
    AbsentUnlessAt(t, "rain", {});
    AbsentUnlessAt(t, "down", {3});
    AbsentUnlessAt(t, "up", {});
  }

  lemma NoNameInsideGust()
    ensures forall pat :: pat in AllowedVariables() && pat != "gust" ==> forall i :: !OccursAt(pat, "gust", i)
  {
    var t := "gust";
    AbsentUnlessAt(t, "hour", {});
    AbsentUnlessAt(t, "day", {});
    AbsentUnlessAt(t, "week", {});
    AbsentUnlessAt(t, "wind", {});
    AbsentUnlessAt(t, "rain", {});
    AbsentUnlessAt(t, "down", {});
    MismatchAt(t, "up", 1, 1);
    AbsentUnlessAt(t, "up", {1});
  }

  lemma NoNameInsideRadiation()
    ensures forall pat :: pat in AllowedVariables() && pat != "radiation" ==> forall i :: !OccursAt(pat, "radiation", i)
  {
    var t := "radiation";
    AbsentUnlessAt(t, "hour", {});
    AbsentUnlessAt(t, "minute", {});
    MismatchAt(t, "day", 2, 1);
    AbsentUnlessAt(t, "day", {2});
    AbsentUnlessAt(t, "month", {});
    AbsentUnlessAt(t, "week", {});
    AbsentUnlessAt(t, "yearday", {});
    AbsentUnlessAt(t, "wind", {});
    AbsentUnlessAt(t, "gust", {});
    MismatchAt(t, "rain", 0, 2);
    AbsentUnlessAt(t, "rain", {0});
    AbsentUnlessAt(t, "moved", {});
    MismatchAt(t, "down", 2, 1);
    AbsentUnlessAt(t, "down", {2});
    AbsentUnlessAt(t, "up", {});
  }

  lemma NoNameInsideRain()
    ensures forall pat :: pat in AllowedVariables() && pat != "rain" ==> forall i :: !OccursAt(pat, "rain", i)
  {
    var t := "rain";
    AbsentUnlessAt(t, "hour", {});
    AbsentUnlessAt(t, "day", {});
    AbsentUnlessAt(t, "week", {});
    AbsentUnlessAt(t, "wind", {});
    AbsentUnlessAt(t, "gust", {});
    AbsentUnlessAt(t, "down", {});
    AbsentUnlessAt(t, "up", {});
  }

  lemma NoNameInsideMoved()
    ensures forall pat :: pat in AllowedVariables() && pat != "moved" ==> forall i :: !OccursAt(pat, "moved", i)
  {
    var t := "moved";
    AbsentUnlessAt(t, "hour", {});
    AbsentUnlessAt(t, "day", {4});
    MismatchAt(t, "month", 0, 2);
    AbsentUnlessAt(t, "month", {0});
    AbsentUnlessAt(t, "week", {});
    AbsentUnlessAt(t, "wind", {});
    AbsentUnlessAt(t, "gust", {});
    AbsentUnlessAt(t, "rain", {});
    AbsentUnlessAt(t, "down", {4});
    AbsentUnlessAt(t, "up", {});
  }

  lemma NoNameInsideDown()
    ensures forall pat :: pat in AllowedVariables() && pat != "down" ==> forall i :: !OccursAt(pat, "down", i)
  {
    var t := "down";
    AbsentUnlessAt(t, "hour", {});
    MismatchAt(t, "day", 0, 1);
    AbsentUnlessAt(t, "day", {0});
    AbsentUnlessAt(t, "week", {2});
    AbsentUnlessAt(t, "wind", {2});
    AbsentUnlessAt(t, "gust", {});
    AbsentUnlessAt(t, "rain", {});
    AbsentUnlessAt(t, "up", {});
  }

  lemma NoNameInsideUp()
    ensures forall pat :: pat in AllowedVariables() && pat != "up" ==> forall i :: !OccursAt(pat, "up", i)
  {
  }

  /** A piece of an accepted condition other than `yearday` holds no other allowed name. */
  lemma NoOtherNameInside(t: string, pat: string)
    requires t in AllowedVariables() && t != "yearday"
    requires pat in AllowedVariables() && pat != t
    ensures forall i :: !OccursAt(pat, t, i)
  {
    if t == "hour" {
      NoNameInsideHour();
    } else if t == "minute" {
      NoNameInsideMinute();
    } else if t == "day" {
      NoNameInsideDay();
    } else if t == "month" {
      NoNameInsideMonth();
    } else if t == "week" {
      NoNameInsideWeek();
    } else if t == "temperature" {
      NoNameInsideTemperature();
    } else if t == "wind" {
      NoNameInsideWind();
    } else if t == "gust" {
      NoNameInsideGust();
    } else if t == "radiation" {
      NoNameInsideRadiation();
    } else if t == "rain" {
      NoNameInsideRain();
    } else if t == "moved" {
      NoNameInsideMoved();
    } else if t == "down" {
      NoNameInsideDown();
    } else {
      NoNameInsideUp();
    }
  }

  // ---------------------------------------------------------------------------------------------
  // The replacement loop, segment by segment

  /** The condition after the loop has handled the names in `done`: the pieces named in `done`
      carry their `$`, everything else is as the split found it. */
  function Partly(segs: seq<Segment>, done: seq<string>): string {
    if segs == [] then []
    else (if segs[0].Piece? && segs[0].text in done then "$" + segs[0].text else segs[0].text) + Partly(segs[1..], done)
  }

  /** No piece is directly followed by another piece. */
  predicate Apart(segs: seq<Segment>) {
    forall k :: 0 <= k < |segs| - 1 && segs[k].Piece? ==> segs[k + 1].Delimiter?
  }

  /** What one replacement round needs of a segment: a piece is the pattern (not yet
      handled) or does not contain it, and a delimiter is non-empty and shares no character
      with the pattern. */
  ghost predicate Rewritable(g: Segment, done: seq<string>, pat: string) {
    match g
    case Piece(t) => (t == pat ==> t !in done) && (t != pat ==> forall i :: !OccursAt(pat, t, i))
    case Delimiter(d) => d != [] && forall c :: c in d ==> c !in pat
  }

  /** One round of the loop puts the `$` in front of exactly the pieces that are the pattern. */
  lemma {:induction false} PartlyStep(segs: seq<Segment>, done: seq<string>, pat: string)
    requires pat != [] && '$' !in pat
    requires Apart(segs) && forall g :: g in segs ==> Rewritable(g, done, pat)
    ensures ReplaceAll(Partly(segs, done), pat, "$" + pat) == Partly(segs, done + [pat])
    decreases |segs|
  {
    if segs != [] {
      var tail := segs[1..];
      var rep := "$" + pat;
      assert Apart(tail);
      assert forall h :: h in tail ==> h in segs;
      PartlyStep(tail, done, pat);
      var y := Partly(tail, done);
      match segs[0]
      case Delimiter(d) =>
        assert Rewritable(segs[0], done, pat);
        ReplaceAllHead(d, y, pat, rep);
      case Piece(t) =>
        assert Rewritable(segs[0], done, pat);
        var x := if t in done then "$" + t else t;
        if tail != [] {
          var d := tail[0].text;
          assert tail[0] == segs[1] && tail[0].Delimiter? && Rewritable(tail[0], done, pat);
          assert y == d + Partly(tail[1..], done);
          assert y[0] == d[0] && d[0] in d;
        }
        ReplaceAllSplit(x, y, pat, rep);
        assert t in done + [pat] <==> t in done || t == pat;
        if t == pat {
          assert t[..|pat|] == pat && t[|pat|..] == [];
        } else {
          ReplaceAllAbsent(t, pat, rep);
          if t in done {
            ReplaceAllHead("$", t, pat, rep);
          }
        }
    }
  }

  lemma {:induction false} PartlyNone(segs: seq<Segment>)
    ensures Partly(segs, []) == Concat(segs)
    decreases |segs|
  {
    if segs != [] {
      PartlyNone(segs[1..]);
    }
  }

  lemma {:induction false} PartlyAll(segs: seq<Segment>, done: seq<string>)
    requires forall g :: g in segs && g.Piece? ==> g.text in done
    ensures Partly(segs, done) == Dollared(segs)
    decreases |segs|
  {
    if segs != [] {
      assert forall h :: h in segs[1..] ==> h in segs;
      PartlyAll(segs[1..], done);
    }
  }

  /** The split never puts two pieces side by side. */
  lemma {:induction false} SegmentsApart(s: string)
    ensures Apart(Segments(s))
    decreases |s|
  {
    var p := FirstDelimiter(s, 0);
    if p < |s| {
      var e := DelimiterEnd(s, p);
      SegmentsApart(s[e..]);
      var head: seq<Segment> := (if p == 0 then [] else [Piece(s[..p])]) + [Delimiter(s[p..e])];
      var tail := Segments(s[e..]);
      assert Segments(s) == head + tail;
      forall k | 0 <= k < |head + tail| - 1 && (head + tail)[k].Piece? ensures (head + tail)[k + 1].Delimiter? {
        if k >= |head| {
          assert (head + tail)[k] == tail[k - |head|] && (head + tail)[k + 1] == tail[k + 1 - |head|];
        }
      }
    }
  }

  /** What the segments of an accepted condition without `yearday` are like. */
  predicate Fits(g: Segment) {
    match g
    case Piece(t) => t in AllowedVariables() && t != "yearday"
    case Delimiter(d) => d != [] && forall c :: c in d ==> !('a' <= c <= 'z')
  }

  /** Every piece of an accepted condition without `yearday` is an allowed name other than
      `yearday`, and every delimiter is non-empty and free of letters. */
  lemma AcceptedSegmentsFit(condition: string)
    requires ConditionAccepted(condition) && "yearday" !in Pieces(condition)
    ensures forall g :: g in Segments(condition) ==> Fits(g)
  {
    SegmentsShape(condition);
    PieceTextsMembers(Segments(condition));
    forall g | g in Segments(condition) ensures Fits(g) {
      assert WellFormed(g);
    }
  }

  /** After the first `k` names, the loop has put a `$` in front of the pieces they name. */
  lemma {:induction false} RewriteNamesPartly(condition: string, segs: seq<Segment>, k: nat)
    requires k <= |AllowedVariables()| && NonEmptyNames(AllowedVariables())
    requires Concat(segs) == condition && Apart(segs) && forall g :: g in segs ==> Fits(g)
    ensures RewriteNames(condition, AllowedVariables()[..k]) == Partly(segs, AllowedVariables()[..k])
    decreases k
  {
    var names := AllowedVariables();
    if k == 0 {
      assert names[..0] == [];
      PartlyNone(segs);
    } else {
      var pat := names[k - 1];
      RewriteNamesPartly(condition, segs, k - 1);
      RewriteNamesNext(condition, names, k - 1);
      AllowedVariablesShape();
      forall g | g in segs ensures Rewritable(g, names[..k - 1], pat) {
        match g
        case Piece(t) =>
          if t != pat {
            NoOtherNameInside(t, pat);
          }
        case Delimiter(d) =>
      }
      PartlyStep(segs, names[..k - 1], pat);
      assert names[..k] == names[..k - 1] + [pat];
    }
  }

  /** On an accepted condition in which `yearday` does not appear, the expression
      `getSanitizedExpression` builds is the intended one. */
  lemma AsWrittenAgrees(condition: string)
    requires ConditionAccepted(condition) && "yearday" !in Pieces(condition)
    ensures "return (" + RewriteNames(condition, AllowedVariables()) + ");" == IntendedExpression(condition)
  {
    var segs := Segments(condition);
    var names := AllowedVariables();
    AllowedNamesNonEmpty();
    AcceptedSegmentsFit(condition);
    SegmentsApart(condition);
    SegmentsCover(condition);
    RewriteNamesPartly(condition, segs, |names|);
    assert names[..|names|] == names;
    PartlyAll(segs, names);
  }
}
