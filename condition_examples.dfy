/** Worked examples: conditions and actions of the kind the configuration holds, proved
    against the model of checkCondition, checkAction and getSanitizedExpression. */
module ConditionExamples {
  import opened Strings
  import opened Conditions

  /** The names the accepted examples use. */
  lemma KnownNames()
    ensures "wind" in AllowedVariables() && "moved" in AllowedVariables()
    ensures "hour" in AllowedVariables() && "yearday" in AllowedVariables()
  {
    var names := AllowedVariables();
    assert names[0] == "hour" && names[5] == "yearday" && names[7] == "wind" && names[11] == "moved";
  }

  /** The number literals of the examples leave no piece. */
  lemma LiteralNoPieces(number: string)
    requires number == "13" || number == "50" || number == "100"
    ensures Pieces(number) == []
  {
    NumberNoPieces(number);
  }

  /** Rules of the example configuration pass the check. */
  lemma WindRuleAccepted(s: string)
    requires s == "wind > 50"
    ensures Pieces(s) == ["wind"]
    ensures ConditionAccepted(s)
  {
    WindPieces(s);
    KnownNames();
  }

  lemma WindPieces(s: string)
    requires s == "wind > 50"
    ensures Pieces(s) == ["wind"]
  {
    var number := "50";
    assert s == "wind" + " " + ">" + " " + number;
    PiecesStep(s, "wind", " ", ">", " ", number);
    LiteralNoPieces(number);
  }

  lemma MovedRuleAccepted(s: string)
    requires s == "moved && hour >= 13"
    ensures Pieces(s) == ["moved", "hour"]
    ensures ConditionAccepted(s)
  {
    MovedPieces(s);
    KnownNames();
  }

  lemma MovedPieces(s: string)
    requires s == "moved && hour >= 13"
    ensures Pieces(s) == ["moved", "hour"]
  {
    var t := "hour >= 13";
    assert s == "moved" + " " + "&&" + " " + t;
    PiecesStep(s, "moved", " ", "&&", " ", t);
    HourPiece(t);
  }

  lemma HourPiece(t: string)
    requires t == "hour >= 13"
    ensures Pieces(t) == ["hour"]
  {
    var u := "= 13";
    assert t == "hour" + " " + ">" + "" + u;
    PiecesStep(t, "hour", " ", ">", "", u);
    EqualsNumber(u);
  }

  lemma EqualsNumber(u: string)
    requires u == "= 13"
    ensures Pieces(u) == []
  {
    var number := "13";
    EqualsStep(u, number);
    LiteralNoPieces(number);
  }

  lemma EqualsStep(u: string, number: string)
    requires u == "= 13" && number == "13"
    ensures Pieces(u) == Pieces(number)
  {
    assert u == "" + "" + "=" + " " + number;
    PiecesStep(u, "", "", "=", " ", number);
  }

  /** `=` is one of the operator characters, so an assignment passes the check as readily as a
      comparison: `hour = 13` splits into `["hour"]` and is accepted. */
  lemma AssignmentAccepted(s: string)
    requires s == "hour = 13"
    ensures Pieces(s) == ["hour"]
    ensures ConditionAccepted(s)
  {
    var number := "13";
    assert s == "hour" + " " + "=" + " " + number;
    PiecesStep(s, "hour", " ", "=", " ", number);
    LiteralNoPieces(number);
    KnownNames();
  }

  /** A negative literal is turned away: `-` is not an operator, so it is left as a piece. */
  lemma NegativeLiteralRejected(s: string)
    requires s == "temperature > -5"
    ensures Pieces(s) == ["temperature", "-"]
    ensures !ConditionAccepted(s)
  {
    var t := "-5";
    assert s == "temperature" + " " + ">" + " " + t;
    PiecesStep(s, "temperature", " ", ">", " ", t);
    MinusFive(t);
    DashIsNoName();
    assert Pieces(s)[1] == "-";
  }

  lemma DashIsNoName()
    ensures "-" !in AllowedVariables()
  {
    forall k | 0 <= k < |AllowedVariables()| ensures AllowedVariables()[k] != "-" {
      assert |AllowedVariables()[k]| >= 2;
    }
  }

  lemma MinusFive(t: string)
    requires t == "-5"
    ensures Pieces(t) == ["-"]
  {
    assert t == "-" + "" + "5" + "" + "";
    PiecesStep(t, "-", "", "5", "", "");
    NoPieces();
  }

  /** A single `&` is no operator: `up & down` is one piece, and not a name. */
  lemma SingleAmpersandRejected(s: string)
    requires s == "up & down"
    ensures Pieces(s) == [s] && !ConditionAccepted(s)
  {
    LastPiece(s);
    assert Pieces(s)[0] == s;
    assert s !in AllowedVariables() by {
      forall k | 0 <= k < |AllowedVariables()| ensures AllowedVariables()[k] != s {
        assert |AllowedVariables()[k]| != |s| || AllowedVariables()[k][2] != s[2];
      }
    }
  }

  /** A variable the script does not define is turned away, however plausible its name. */
  lemma UnknownNameRejected(s: string)
    requires s == "executed"
    ensures Pieces(s) == [s] && !ConditionAccepted(s)
  {
    LastPiece(s);
    assert Pieces(s)[0] == s;
    assert s !in AllowedVariables() by {
      forall k | 0 <= k < |AllowedVariables()| ensures AllowedVariables()[k] != s {
        assert |AllowedVariables()[k]| != |s|;
      }
    }
  }

  /** Whitespace is absorbed only next to an operator: ` up` is one piece, and not a name. */
  lemma LeadingSpaceRejected(t: string)
    requires t == " up"
    ensures Pieces(t) == [t] && !ConditionAccepted(t)
  {
    LastPiece(t);
    assert Pieces(t)[0] == t;
    assert t !in AllowedVariables() by {
      forall k | 0 <= k < |AllowedVariables()| ensures AllowedVariables()[k] != t {
        assert |AllowedVariables()[k]| == 0 || AllowedVariables()[k][0] != t[0];
      }
    }
  }

  /** An accepted rule on the day of the year. */
  lemma YeardayRuleAccepted(condition: string)
    requires condition == "yearday > 100"
    ensures Pieces(condition) == ["yearday"]
    ensures ConditionAccepted(condition)
  {
    YeardayPieces(condition);
    KnownNames();
  }

  lemma YeardayPieces(condition: string)
    requires condition == "yearday > 100"
    ensures Pieces(condition) == ["yearday"]
  {
    var number := "100";
    YeardayStep(condition, number);
    LiteralNoPieces(number);
  }

  lemma YeardayStep(condition: string, number: string)
    requires condition == "yearday > 100" && number == "100"
    ensures Pieces(condition) == ["yearday"] + Pieces(number)
  {
    assert condition == "yearday" + " " + ">" + " " + number;
    PiecesStep(condition, "yearday", " ", ">", " ", number);
  }

  /** As written, the loop rewrites `day` inside `yearday` first (`day` precedes `yearday` in
      the list), after which `yearday` no longer occurs: the accepted condition becomes code
      with a bare word `year` in front of `$day`, which PHP cannot parse. */
  lemma YeardayMangled(condition: string)
    requires condition == "yearday > 100"
    ensures ConditionAccepted(condition)
    ensures RewriteNames(condition, AllowedVariables()) == "year$day > 100"
  {
    var names := AllowedVariables();
    AllowedNamesNonEmpty();
    YeardayRuleAccepted(condition);
    YeardayAfterDay(condition, names);
    LaterAllowedNamesAbsent("year$day > 100");
    RewriteNamesAbsentRest(condition, names, 3);
  }

  /** None of the allowed names after `day` occurs in the rewritten text. */
  lemma LaterAllowedNamesAbsent(s: string)
    requires s == "year$day > 100"
    ensures forall j, i :: 3 <= j < |AllowedVariables()| ==> !OccursAt(AllowedVariables()[j], s, i)
  {
    LaterNamesAbsent(s, AllowedVariables());
  }

  /** `hour` and `minute` do not occur; `day` does, inside `yearday`. */
  lemma YeardayAfterDay(condition: string, names: seq<string>)
    requires condition == "yearday > 100"
    requires NonEmptyNames(names) && |names| >= 3
    requires names[0] == "hour" && names[1] == "minute" && names[2] == "day"
    ensures RewriteNames(condition, names[..3]) == "year$day > 100"
  {
    YeardayBeforeDay(condition, names);
    RewriteNamesNext(condition, names, 2);
    assert "$" + names[2] == "$day";
    DayInsideYearday(condition);
  }

  lemma YeardayBeforeDay(condition: string, names: seq<string>)
    requires condition == "yearday > 100"
    requires NonEmptyNames(names) && |names| >= 2 && names[0] == "hour" && names[1] == "minute"
    ensures RewriteNames(condition, names[..2]) == condition
  {
    assert names[..0] == [];
    AbsentUnlessAt(condition, "hour", {});
    RewriteNamesSkip(condition, names, 0);
    AbsentUnlessAt(condition, "minute", {});
    RewriteNamesSkip(condition, names, 1);
  }

  lemma DayInsideYearday(s: string)
    requires s == "yearday > 100"
    ensures ReplaceAll(s, "day", "$day") == "year$day > 100"
  {
    var a, b := "year", " > 100";
    DayOnlyOnce(s, a, b);
    ReplaceAllOnce(a, "day", b, "$day");
    assert a + "$day" + b == "year$day > 100";
  }

  /** `day` occurs in `yearday > 100` only after `year`. */
  lemma DayOnlyOnce(s: string, a: string, b: string)
    requires s == "yearday > 100" && a == "year" && b == " > 100"
    ensures s == a + "day" + b
    ensures forall i :: 0 <= i < |a| ==> !OccursAt("day", a + "day" + b, i)
    ensures forall i :: !OccursAt("day", b, i)
  {
    assert s == a + "day" + b;
    forall i | 0 <= i < |a| ensures !OccursAt("day", s, i) {
      MismatchAt(s, "day", i, 0);
    }
    AbsentUnlessAt(b, "day", {});
  }

  /** None of the names after `day` occurs in the rewritten text. */
  lemma LaterNamesAbsent(s: string, names: seq<string>)
    requires s == "year$day > 100"
    requires |names| == 14 && names[3] == "month" && names[4] == "week" && names[5] == "yearday"
    requires names[6] == "temperature" && names[7] == "wind" && names[8] == "gust" && names[9] == "radiation"
    requires names[10] == "rain" && names[11] == "moved" && names[12] == "down" && names[13] == "up"
    ensures forall j, i :: 3 <= j < |names| ==> !OccursAt(names[j], s, i)
  {
    NearMisses(s);
    PlainMisses(s);
  }

  /** The names whose first letter does occur in the text. */
  lemma NearMisses(s: string)
    requires s == "year$day > 100"
    ensures forall i :: !OccursAt("yearday", s, i) && !OccursAt("radiation", s, i)
    ensures forall i :: !OccursAt("rain", s, i) && !OccursAt("down", s, i)
  {
    YeardayAndRadiationMiss(s);
    RainAndDownMiss(s);
  }

  lemma YeardayAndRadiationMiss(s: string)
    requires s == "year$day > 100"
    ensures forall i :: !OccursAt("yearday", s, i) && !OccursAt("radiation", s, i)
  {
    MismatchAt(s, "yearday", 0, 4);
    MismatchAt(s, "yearday", 7, 1);
    AbsentUnlessAt(s, "yearday", {0, 7});
    MismatchAt(s, "radiation", 3, 1);
    AbsentUnlessAt(s, "radiation", {3});
  }

  lemma RainAndDownMiss(s: string)
    requires s == "year$day > 100"
    ensures forall i :: !OccursAt("rain", s, i) && !OccursAt("down", s, i)
  {
    MismatchAt(s, "rain", 3, 1);
    AbsentUnlessAt(s, "rain", {3});
    MismatchAt(s, "down", 5, 1);
    AbsentUnlessAt(s, "down", {5});
  }

  /** The names whose first letter does not occur in the text at all. */
  lemma PlainMisses(s: string)
    requires s == "year$day > 100"
    ensures forall i :: !OccursAt("month", s, i) && !OccursAt("week", s, i) && !OccursAt("temperature", s, i)
    ensures forall i :: !OccursAt("wind", s, i) && !OccursAt("gust", s, i) && !OccursAt("moved", s, i)
    ensures forall i :: !OccursAt("up", s, i)
  {
    AbsentUnlessAt(s, "month", {});
    AbsentUnlessAt(s, "week", {});
    AbsentUnlessAt(s, "temperature", {});
    AbsentUnlessAt(s, "wind", {});
    AbsentUnlessAt(s, "gust", {});
    AbsentUnlessAt(s, "moved", {});
    AbsentUnlessAt(s, "up", {});
  }

  /** The corrected rewriting gives the `yearday` rule the code it is meant to have. */
  lemma YeardayIntended(condition: string)
    requires condition == "yearday > 100"
    ensures IntendedExpression(condition) == "return ($yearday > 100);"
  {
    var x := Dollared(Segments(condition));
    assert IntendedExpression(condition) == "return (" + x + ");";
    YeardayDollared(condition);
    YeardayWrapped(x);
  }

  lemma YeardayWrapped(x: string)
    requires x == "$yearday > 100"
    ensures "return (" + x + ");" == "return ($yearday > 100);"
  {
  }

  lemma YeardayDollared(condition: string)
    requires condition == "yearday > 100"
    ensures Dollared(Segments(condition)) == "$yearday > 100"
  {
    var w, rest := "yearday", "100";
    assert condition == w + " " + ">" + " " + rest;
    YeardayHead(condition, w, rest);
  }

  lemma YeardayHead(condition: string, w: string, rest: string)
    requires condition == w + " " + ">" + " " + rest
    requires w == "yearday" && rest == "100"
    ensures Dollared(Segments(condition)) == "$yearday > 100"
  {
    DollaredStep(condition, w, " ", ">", " ", rest);
    NumberDollared(rest);
    YeardayGlue(w, rest);
  }

  lemma YeardayGlue(w: string, rest: string)
    requires w == "yearday" && rest == "100"
    ensures "$" + w + (" " + ">" + " ") + rest == "$yearday > 100"
  {
  }

  /** The action check is an unanchored, case-sensitive search: a word that merely contains
      `up` passes, a capitalised `Up` does not, nor does a word without any of the three. */
  lemma ActionExamples()
    ensures ActionAccepted("up") && ActionAccepted("down") && ActionAccepted("my")
    ensures ActionAccepted("setup")
    ensures !ActionAccepted("Up")
    ensures !ActionAccepted("open")
  {
    assert OccursAt("up", "up", 0);
    assert OccursAt("down", "down", 0);
    assert OccursAt("my", "my", 0);
    assert OccursAt("up", "setup", 3);
    AbsentUnlessAt("Up", "up", {});
    AbsentUnlessAt("Up", "down", {});
    AbsentUnlessAt("Up", "my", {});
    AbsentUnlessAt("open", "up", {});
    AbsentUnlessAt("open", "down", {});
    AbsentUnlessAt("open", "my", {});
  }
}
