/** Rule conditions and actions of control.php: the whitelist of variable names
    (`getAlloweVariables`), the condition check (`checkCondition`), the action check
    (`checkAction`) and the rewriting of a condition into evaluable code
    (`getSanitizedExpression`). */
module Conditions {
  import opened Strings

  /** The names `getAlloweVariables` returns, in its order. */
  function AllowedVariables(): (names: seq<string>)
    ensures |names| == 14
  {
    ["hour", "minute", "day", "month", "week", "yearday", "temperature", "wind", "gust",
     "radiation", "rain", "moved", "down", "up"]
  }

  /** The names are distinct, non-empty lower-case words. */
  lemma AllowedVariablesShape()
    ensures var names := AllowedVariables();
      && (forall i, j :: 0 <= i < j < |names| ==> names[i] != names[j])
      && (forall i :: 0 <= i < |names| ==> names[i] != [] && IsLowerWord(names[i]))
  {
  }

  /** No name is empty or holds a `$`, as the rewriting loop needs. */
  lemma AllowedNamesNonEmpty()
    ensures NonEmptyNames(AllowedVariables())
  {
  }

  predicate IsLowerWord(s: string) { forall k :: 0 <= k < |s| ==> 'a' <= s[k] <= 'z' }

  /** Why the script stops: `printErrorAndExit` with one of its two configuration messages. */
  datatype ConfigError =
    | InvalidVariable(component: string, condition: string)
    | InvalidAction(action: string)

  // ---------------------------------------------------------------------------------------------
  // The split of checkCondition:
  //   preg_split('/\s*(\&\&|\|\||\!|\(|\)|\>|\<|=|[\d+\.])\s*/', $condition, 0, PREG_SPLIT_NO_EMPTY)

  /** The one-character alternatives of the pattern: `!`, `(`, `)`, `>`, `<`, `=` and the
      class `[\d+\.]` (a digit, `+` or `.`). */
  predicate IsOperatorChar(c: char) {
    c == '!' || c == '(' || c == ')' || c == '>' || c == '<' || c == '=' || IsDigit(c) || c == '+' || c == '.'
  }

  /** Length of the operator alternative that matches at `i` (`&&` and `||` are tried first),
      0 if none does. */
  function OperatorLength(s: string, i: nat): (n: nat)
    requires i <= |s|
    ensures n <= |s| - i
    ensures n == 0 <==> (i == |s| || (!IsOperatorChar(s[i]) && !(i + 1 < |s| && s[i] == s[i + 1] && (s[i] == '&' || s[i] == '|'))))
  {
    if i + 1 < |s| && ((s[i] == '&' && s[i + 1] == '&') || (s[i] == '|' && s[i + 1] == '|')) then 2
    else if i < |s| && IsOperatorChar(s[i]) then 1
    else 0
  }

  /** The end of the greedy `\s*` that starts at `i`. */
  function SkipSpaces(s: string, i: nat): (j: nat)
    requires i <= |s|
    ensures i <= j <= |s|
    ensures forall k :: i <= k < j ==> IsSpace(s[k])
    ensures j < |s| ==> !IsSpace(s[j])
    decreases |s| - i
  {
    if i < |s| && IsSpace(s[i]) then SkipSpaces(s, i + 1) else i
  }

  /** The pattern matches at `i`: whitespace, then an operator. (Giving back whitespace never
      helps, since no operator is whitespace.) */
  predicate DelimiterAt(s: string, i: nat)
    requires i <= |s|
  {
    OperatorLength(s, SkipSpaces(s, i)) > 0
  }

  /** Where the match that starts at `i` ends: after the operator and the whitespace after it. */
  function DelimiterEnd(s: string, i: nat): (e: nat)
    requires i <= |s| && DelimiterAt(s, i)
    ensures i < e <= |s|
  {
    var j := SkipSpaces(s, i);
    SkipSpaces(s, j + OperatorLength(s, j))
  }

  /** The leftmost match at or after `i`, or `|s|` when there is none. */
  function FirstDelimiter(s: string, i: nat): (p: nat)
    requires i <= |s|
    ensures i <= p <= |s|
    ensures p < |s| ==> DelimiterAt(s, p)
    ensures forall k :: i <= k < p ==> !DelimiterAt(s, k)
    decreases |s| - i
  {
    if i == |s| || DelimiterAt(s, i) then i else FirstDelimiter(s, i + 1)
  }

  /** A condition cut into what lies between matches (`Piece`) and the matched text itself
      (`Delimiter`), in order, with empty pieces left out. */
  datatype Segment = Piece(text: string) | Delimiter(text: string)

  /** No position of `t` starts an operator. */
  predicate NoOperator(t: string) {
    forall k :: 0 <= k < |t| ==> OperatorLength(t, k) == 0
  }

  /** A character the split consumes as part of a match. */
  predicate IsDelimiterChar(c: char) { IsSpace(c) || IsOperatorChar(c) || c == '&' || c == '|' }

  predicate DelimiterText(t: string) {
    t != [] && forall k :: 0 <= k < |t| ==> IsDelimiterChar(t[k])
  }

  function Segments(s: string): seq<Segment>
    decreases |s|
  {
    var p := FirstDelimiter(s, 0);
    if p == |s| then
      if s == [] then [] else [Piece(s)]
    else
      var e := DelimiterEnd(s, p);
      (if p == 0 then [] else [Piece(s[..p])]) + [Delimiter(s[p..e])] + Segments(s[e..])
  }

  /** A piece is non-empty text without operators; a delimiter is non-empty text of
      whitespace, operator characters, `&` and `|`. */
  predicate WellFormed(g: Segment) {
    match g
    case Piece(t) => t != [] && NoOperator(t)
    case Delimiter(t) => DelimiterText(t)
  }

  lemma {:induction false} SegmentsShape(s: string)
    ensures forall g :: g in Segments(s) ==> WellFormed(g)
    decreases |s|
  {
    var p := FirstDelimiter(s, 0);
    if p == |s| {
      PieceHasNoOperator(s, |s|);
      assert s[..|s|] == s;
    } else {
      var e := DelimiterEnd(s, p);
      PieceHasNoOperator(s, p);
      MatchIsDelimiterText(s, p);
      SegmentsShape(s[e..]);
      var head: seq<Segment> := (if p == 0 then [] else [Piece(s[..p])]) + [Delimiter(s[p..e])];
      assert Segments(s) == head + Segments(s[e..]);
      assert forall g :: g in head ==> WellFormed(g);
    }
  }

  /** Text before the leftmost match contains no operator of its own. */
  lemma PieceHasNoOperator(s: string, p: nat)
    requires p <= |s|
    requires forall k :: 0 <= k < p ==> !DelimiterAt(s, k)
    ensures NoOperator(s[..p])
  {
    forall k | 0 <= k < p ensures OperatorLength(s[..p], k) == 0 {
      assert !DelimiterAt(s, k);
      if !IsSpace(s[k]) {
        assert SkipSpaces(s, k) == k;
      }
    }
  }

  lemma MatchIsDelimiterText(s: string, p: nat)
    requires p < |s| && DelimiterAt(s, p)
    ensures DelimiterText(s[p..DelimiterEnd(s, p)])
  {
    var j := SkipSpaces(s, p);
    var n := OperatorLength(s, j);
    var e := DelimiterEnd(s, p);
    forall k | p <= k < e ensures IsDelimiterChar(s[k]) {
      if j <= k < j + n {
        assert IsOperatorChar(s[j]) || s[j] == '&' || s[j] == '|';
        if k == j + 1 { assert n == 2 ==> s[k] == s[j]; }
      }
    }
  }

  /** The texts of the pieces, in order. */
  function PieceTexts(segs: seq<Segment>): (ps: seq<string>)
    ensures |ps| <= |segs|
    decreases |segs|
  {
    if segs == [] then []
    else (if segs[0].Piece? then [segs[0].text] else []) + PieceTexts(segs[1..])
  }

  /** The texts of all segments, concatenated. */
  function Concat(segs: seq<Segment>): string
    decreases |segs|
  {
    if segs == [] then [] else segs[0].text + Concat(segs[1..])
  }

  /** What `preg_split(..., PREG_SPLIT_NO_EMPTY)` returns for the condition. */
  function Pieces(condition: string): seq<string> {
    PieceTexts(Segments(condition))
  }

  lemma {:induction false} ConcatAppend(a: seq<Segment>, b: seq<Segment>)
    ensures Concat(a + b) == Concat(a) + Concat(b)
    decreases |a|
  {
    if a == [] {
      assert a + b == b;
    } else {
      assert (a + b)[1..] == a[1..] + b;
      ConcatAppend(a[1..], b);
    }
  }

  lemma {:induction false} PieceTextsAppend(a: seq<Segment>, b: seq<Segment>)
    ensures PieceTexts(a + b) == PieceTexts(a) + PieceTexts(b)
    decreases |a|
  {
    if a == [] {
      assert a + b == b;
    } else {
      var h := if a[0].Piece? then [a[0].text] else [];
      assert (a + b)[0] == a[0];
      assert (a + b)[1..] == a[1..] + b;
      PieceTextsAppend(a[1..], b);
      assert PieceTexts(a + b) == h + PieceTexts(a[1..] + b);
      assert PieceTexts(a) == h + PieceTexts(a[1..]);
    }
  }

  /** The split loses nothing: pieces and matches, put back together, are the condition. */
  lemma {:induction false} SegmentsCover(s: string)
    ensures Concat(Segments(s)) == s
    decreases |s|
  {
    var p := FirstDelimiter(s, 0);
    if p < |s| {
      var e := DelimiterEnd(s, p);
      SegmentsCover(s[e..]);
      SegmentsUnfold(s, p, e);
      CoverStep(s, p, e, Segments(s), Segments(s[e..]));
    } else {
      assert s[..|s|] == s;
    }
  }

  /** One step of the split loses nothing when the rest loses nothing. */
  lemma CoverStep(s: string, p: nat, e: nat, segs: seq<Segment>, tail: seq<Segment>)
    requires p < e <= |s|
    requires segs == (if p == 0 then [] else [Piece(s[..p])]) + [Delimiter(s[p..e])] + tail
    requires Concat(tail) == s[e..]
    ensures Concat(segs) == s
  {
    var head: seq<Segment> := (if p == 0 then [] else [Piece(s[..p])]) + [Delimiter(s[p..e])];
    assert segs == head + tail;
    ConcatAppend(head, tail);
    HeadCover(s, p, e, head);
    assert s == s[..e] + s[e..];
  }

  lemma HeadCover(s: string, p: nat, e: nat, head: seq<Segment>)
    requires p < e <= |s|
    requires head == (if p == 0 then [] else [Piece(s[..p])]) + [Delimiter(s[p..e])]
    ensures Concat(head) == s[..e]
  {
    if p == 0 {
      assert head == [Delimiter(s[..e])];
      assert Concat(head) == s[..e] + Concat([]);
    } else {
      assert head[1..] == [Delimiter(s[p..e])];
      assert Concat(head[1..]) == s[p..e] + Concat([]);
      assert Concat(head) == s[..p] + Concat(head[1..]);
      assert s[..e] == s[..p] + s[p..e];
    }
  }

  /** Every piece the split returns is the text of one of its `Piece` segments, and back. */
  lemma {:induction false} PieceTextsMembers(segs: seq<Segment>)
    ensures forall t :: t in PieceTexts(segs) ==> Piece(t) in segs
    ensures forall t :: Piece(t) in segs ==> t in PieceTexts(segs)
    decreases |segs|
  {
    if segs != [] {
      PieceTextsMembers(segs[1..]);
      var head := if segs[0].Piece? then [segs[0].text] else [];
      assert PieceTexts(segs) == head + PieceTexts(segs[1..]);
      assert forall x :: x in segs <==> x == segs[0] || x in segs[1..];
    }
  }

  /** Every piece is non-empty and holds no operator: no `&&`, `||`, `!`, parenthesis,
      comparison character, digit, `+` or `.`. */
  lemma PiecesShape(condition: string)
    ensures forall t :: t in Pieces(condition) ==> t != [] && NoOperator(t)
  {
    var segs := Segments(condition);
    PieceTextsMembers(segs);
    SegmentsShape(condition);
    forall t | t in Pieces(condition) ensures t != [] && NoOperator(t) {
      assert WellFormed(Piece(t));
    }
  }

  // ---------------------------------------------------------------------------------------------
  // How the split treats a condition built piece by piece

  predicate AllSpaces(t: string) { forall k :: 0 <= k < |t| ==> IsSpace(t[k]) }

  /** A token the pattern's alternation matches as a whole. */
  predicate IsOperatorToken(op: string) {
    op == "&&" || op == "||" || (|op| == 1 && IsOperatorChar(op[0]))
  }

  /** Text with no operator, `&` or `|` and no whitespace: a piece in the making. */
  predicate IsPlainWord(w: string) { forall k :: 0 <= k < |w| ==> !IsDelimiterChar(w[k]) }

  lemma SkipSpacesExact(s: string, i: nat, j: nat)
    requires i <= j <= |s|
    requires forall k :: i <= k < j ==> IsSpace(s[k])
    requires j == |s| || !IsSpace(s[j])
    ensures SkipSpaces(s, i) == j
  {
  }

  /** A plain word followed by an operator and the whitespace around it: the word is the next
      piece and the split goes on after the whitespace. */
  lemma PiecesStep(s: string, w: string, before: string, op: string, after: string, rest: string)
    requires s == w + before + op + after + rest
    requires IsPlainWord(w) && AllSpaces(before) && IsOperatorToken(op) && AllSpaces(after)
    requires rest == [] || !IsSpace(rest[0])
    ensures Pieces(s) == (if w == [] then [] else [w]) + Pieces(rest)
  {
    var d := before + op + after;
    SegmentsStep(s, w, before, op, after, rest);
    var head: seq<Segment> := (if w == [] then [] else [Piece(w)]) + [Delimiter(d)];
    PieceTextsAppend(head, Segments(rest));
    var last: seq<Segment> := [Delimiter(d)];
    assert PieceTexts(last) == [] + PieceTexts(last[1..]);
    assert last[1..] == [];
    if w != [] {
      assert head[1..] == last;
      assert PieceTexts(head) == [w] + PieceTexts(last);
    }
  }

  lemma SegmentsStep(s: string, w: string, before: string, op: string, after: string, rest: string)
    requires s == w + before + op + after + rest
    requires IsPlainWord(w) && AllSpaces(before) && IsOperatorToken(op) && AllSpaces(after)
    requires rest == [] || !IsSpace(rest[0])
    ensures Segments(s) == (if w == [] then [] else [Piece(w)]) + [Delimiter(before + op + after)] + Segments(rest)
  {
    var d := before + op + after;
    MatchAfterWord(s, w, before, op, after, rest);
    Reassociate(w, before, op, after, rest);
    ThreeSlices(s, w, d, rest);
    SegmentsUnfold(s, |w|, |w| + |d|);
  }

  lemma Reassociate(w: string, before: string, op: string, after: string, rest: string)
    ensures w + before + op + after + rest == w + (before + op + after) + rest
  {
  }

  lemma ThreeSlices(s: string, a: string, b: string, c: string)
    requires s == a + b + c
    ensures s[..|a|] == a && s[|a|..|a| + |b|] == b && s[|a| + |b|..] == c
  {
  }

  lemma SegmentsUnfold(s: string, p: nat, e: nat)
    requires p < |s| && FirstDelimiter(s, 0) == p && DelimiterEnd(s, p) == e
    ensures Segments(s) == (if p == 0 then [] else [Piece(s[..p])]) + [Delimiter(s[p..e])] + Segments(s[e..])
  {
  }

  lemma MatchAfterWord(s: string, w: string, before: string, op: string, after: string, rest: string)
    requires s == w + before + op + after + rest
    requires IsPlainWord(w) && AllSpaces(before) && IsOperatorToken(op) && AllSpaces(after)
    requires rest == [] || !IsSpace(rest[0])
    ensures FirstDelimiter(s, 0) == |w| < |s|
    ensures DelimiterEnd(s, |w|) == |w| + |before + op + after|
  {
    var j := |w| + |before|;
    var o := j + |op|;
    var e := o + |after|;
    FiveSlices(s, w, before, op, after, rest, j, o, e);
    SlicedMatch(s, w, before, op, after, rest, j, o, e);
  }

  lemma FiveSlices(s: string, w: string, before: string, op: string, after: string, rest: string, j: nat, o: nat, e: nat)
    requires s == w + before + op + after + rest
    requires j == |w| + |before| && o == j + |op| && e == o + |after|
    ensures e <= |s| && s[..|w|] == w && s[|w|..j] == before && s[j..o] == op && s[o..e] == after && s[e..] == rest
  {
  }

  lemma SlicedMatch(s: string, w: string, before: string, op: string, after: string, rest: string, j: nat, o: nat, e: nat)
    requires j == |w| + |before| && o == j + |op| && e == o + |after|
    requires e <= |s| && s[..|w|] == w && s[|w|..j] == before && s[j..o] == op && s[o..e] == after && s[e..] == rest
    requires IsPlainWord(w) && AllSpaces(before) && IsOperatorToken(op) && AllSpaces(after)
    requires rest == [] || !IsSpace(rest[0])
    ensures FirstDelimiter(s, 0) == |w| < |s|
    ensures DelimiterEnd(s, |w|) == e
  {
    OperatorMatch(s, j, o, op);
    if rest != [] {
      assert s[e] == rest[0];
    }
    MatchAt(s, |w|, j, o, e);
  }

  lemma OperatorMatch(s: string, j: nat, o: nat, op: string)
    requires o == j + |op| <= |s| && s[j..o] == op && IsOperatorToken(op)
    ensures OperatorLength(s, j) == |op| > 0
  {
    assert s[j] == op[0];
    assert |op| == 2 ==> s[j + 1] == op[1];
  }

  /** A plain word up to `a`, whitespace up to `j`, an operator up to `o` and whitespace up to
      `e`, where the whitespace ends: the leftmost match is the one from `a` to `e`. */
  lemma MatchAt(s: string, a: nat, j: nat, o: nat, e: nat)
    requires a <= j < o <= e <= |s|
    requires IsPlainWord(s[..a]) && AllSpaces(s[a..j]) && AllSpaces(s[o..e])
    requires OperatorLength(s, j) == o - j
    requires e == |s| || !IsSpace(s[e])
    ensures FirstDelimiter(s, 0) == a && DelimiterEnd(s, a) == e
  {
    forall k | 0 <= k < a ensures !DelimiterAt(s, k) {
      assert s[..a][k] == s[k];
      SkipSpacesExact(s, k, k);
    }
    forall k | a <= k < j ensures IsSpace(s[k]) {
      assert s[a..j][k - a] == s[k];
    }
    SkipSpacesExact(s, a, j);
    assert DelimiterAt(s, a);
    forall k | o <= k < e ensures IsSpace(s[k]) {
      assert s[o..e][k - o] == s[k];
    }
    SkipSpacesExact(s, o, e);
  }

  /** Text in which the pattern never matches is a single piece. */
  lemma LastPiece(w: string)
    requires w != []
    requires forall k :: 0 <= k < |w| ==> !IsOperatorChar(w[k])
    requires forall k :: 0 <= k < |w| - 1 ==> !(w[k] == w[k + 1] && (w[k] == '&' || w[k] == '|'))
    ensures Pieces(w) == [w]
  {
    forall k | 0 <= k < |w| ensures !DelimiterAt(w, k) {
      var j := SkipSpaces(w, k);
    }
    assert FirstDelimiter(w, 0) == |w|;
    assert w[..|w|] == w;
    assert Segments(w) == [Piece(w)];
    assert PieceTexts([Piece(w)]) == [w] + PieceTexts([]);
  }

  lemma NoPieces()
    ensures Pieces("") == []
  {
    assert FirstDelimiter("", 0) == 0;
  }

  // ---------------------------------------------------------------------------------------------
  // checkCondition

  /** Every piece is one of the allowed names (compared exactly, as `in_array` does for
      strings). */
  predicate ConditionAccepted(condition: string) {
    forall k :: 0 <= k < |Pieces(condition)| ==> Pieces(condition)[k] in AllowedVariables()
  }

  /** The index of the first piece that is not an allowed name. */
  function FirstRejected(pieces: seq<string>): (r: Option<nat>)
    ensures r.None? <==> forall k :: 0 <= k < |pieces| ==> pieces[k] in AllowedVariables()
    ensures r.Some? ==> r.value < |pieces| && pieces[r.value] !in AllowedVariables()
    ensures r.Some? ==> forall k :: 0 <= k < r.value ==> pieces[k] in AllowedVariables()
    decreases |pieces|
  {
    if pieces == [] then None
    else if pieces[0] !in AllowedVariables() then Some(0)
    else match FirstRejected(pieces[1..])
      case None => None
      case Some(k) => Some(k + 1)
  }

  /** The error for the first of `pieces` that is not an allowed name, if any. */
  function PiecesError(pieces: seq<string>, condition: string): Option<ConfigError> {
    match FirstRejected(pieces)
    case None => None
    case Some(k) => Some(InvalidVariable(pieces[k], condition))
  }

  /** The error `checkCondition` stops with, if any. */
  function ConditionError(condition: string): (r: Option<ConfigError>)
    ensures r.None? <==> ConditionAccepted(condition)
    ensures r.Some? ==> r.value.InvalidVariable? && r.value.condition == condition
                        && r.value.component in Pieces(condition)
                        && r.value.component !in AllowedVariables()
  {
    PiecesError(Pieces(condition), condition)
  }

  /** The error names the first piece that is not an allowed name, all pieces before it being
      allowed. */
  lemma ConditionErrorFirst(condition: string)
    ensures ConditionError(condition).Some? ==>
      exists k :: 0 <= k < |Pieces(condition)|
        && ConditionError(condition) == Some(InvalidVariable(Pieces(condition)[k], condition))
        && Pieces(condition)[k] !in AllowedVariables()
        && forall j :: 0 <= j < k ==> Pieces(condition)[j] in AllowedVariables()
  {
    var pieces := Pieces(condition);
    var first := FirstRejected(pieces);
    if first.Some? {
      assert ConditionError(condition) == Some(InvalidVariable(pieces[first.value], condition));
    }
  }

  /** `checkCondition`: walks the pieces and stops at the first one that is not an allowed
      name. */
  method CheckCondition(condition: string) returns (r: Option<ConfigError>)
    ensures r == ConditionError(condition)
  {
    var components := Pieces(condition);
    r := CheckComponents(components, condition);
  }

  /** The loop of `checkCondition` over the split's pieces. */
  method CheckComponents(components: seq<string>, condition: string) returns (r: Option<ConfigError>)
    ensures r == PiecesError(components, condition)
  {
    var allowedVariables := AllowedVariables();
    for k := 0 to |components|
      invariant forall j :: 0 <= j < k ==> components[j] in allowedVariables
    {
      if components[k] !in allowedVariables {
        assert FirstRejected(components) == Some(k);
        return Some(InvalidVariable(components[k], condition));
      }
    }
    assert FirstRejected(components) == None;
    return None;
  }

  /** The characters an accepted condition can be made of. */
  predicate IsConditionChar(c: char) { IsDelimiterChar(c) || 'a' <= c <= 'z' }

  /** An accepted condition consists only of whitespace, operator characters, `&`, `|`,
      digits and lower-case letters: in particular it has no `$`, `;`, quote or backtick. */
  lemma ConditionAlphabet(condition: string)
    requires ConditionAccepted(condition)
    ensures forall k :: 0 <= k < |condition| ==> IsConditionChar(condition[k])
    ensures '$' !in condition && ';' !in condition && '"' !in condition
    ensures '\'' !in condition && '`' !in condition
  {
    var segs := Segments(condition);
    forall g | g in segs ensures SegmentChars(g) {
      AcceptedSegmentChars(condition, g);
    }
    ConcatChars(segs);
    SegmentsCover(condition);
    ExcludedChars(condition);
  }

  lemma ExcludedChars(s: string)
    requires forall k :: 0 <= k < |s| ==> IsConditionChar(s[k])
    ensures '$' !in s && ';' !in s && '"' !in s && '\'' !in s && '`' !in s
  {
    forall k | 0 <= k < |s| ensures s[k] != '$' && s[k] != ';' && s[k] != '"' && s[k] != '\'' && s[k] != '`' {
      assert IsConditionChar(s[k]);
    }
  }

  lemma AcceptedSegmentChars(condition: string, g: Segment)
    requires ConditionAccepted(condition) && g in Segments(condition)
    ensures SegmentChars(g)
  {
    SegmentsShape(condition);
    assert WellFormed(g);
    if g.Piece? {
      PieceTextsMembers(Segments(condition));
      assert g == Piece(g.text);
      assert g.text in Pieces(condition);
      NameChars(condition, g.text);
    }
  }

  lemma NameChars(condition: string, t: string)
    requires ConditionAccepted(condition) && t in Pieces(condition)
    ensures forall k :: 0 <= k < |t| ==> 'a' <= t[k] <= 'z'
  {
    var k :| 0 <= k < |Pieces(condition)| && Pieces(condition)[k] == t;
    var i :| 0 <= i < |AllowedVariables()| && AllowedVariables()[i] == t;
    AllowedVariablesShape();
  }

  predicate SegmentChars(g: Segment) {
    forall k :: 0 <= k < |g.text| ==> IsConditionChar(g.text[k])
  }

  lemma {:induction false} ConcatChars(segs: seq<Segment>)
    requires forall g :: g in segs ==> SegmentChars(g)
    ensures forall k :: 0 <= k < |Concat(segs)| ==> IsConditionChar(Concat(segs)[k])
    decreases |segs|
  {
    if segs != [] {
      assert forall g :: g in segs[1..] ==> g in segs;
      ConcatChars(segs[1..]);
      var t, rest := segs[0].text, Concat(segs[1..]);
      assert SegmentChars(segs[0]);
      assert Concat(segs) == t + rest;
      forall k | 0 <= k < |t + rest| ensures IsConditionChar((t + rest)[k]) {
        if k >= |t| { assert (t + rest)[k] == rest[k - |t|]; }
      }
    }
  }

  /** A number literal (digits and dots, no whitespace) is consumed entirely by the class
      `[\d+\.]`: it leaves no piece behind. */
  lemma {:induction false} NumberNoPieces(s: string)
    requires forall k :: 0 <= k < |s| ==> IsDigit(s[k]) || s[k] == '.'
    ensures Pieces(s) == []
    decreases |s|
  {
    if s == [] {
      NoPieces();
    } else {
      PiecesStep(s, "", "", s[..1], "", s[1..]);
      NumberNoPieces(s[1..]);
    }
  }

  // ---------------------------------------------------------------------------------------------
  // checkAction: preg_match('/up|down|my/', $action)

  /** The action contains `up`, `down` or `my` somewhere; nothing anchors the pattern. */
  function ActionAccepted(action: string): (r: bool)
    ensures r <==> exists i :: OccursAt("up", action, i) || OccursAt("down", action, i) || OccursAt("my", action, i)
  {
    Contains(action, "up") || Contains(action, "down") || Contains(action, "my")
  }

  /** The error `checkAction` stops with, if any. */
  function ActionError(action: string): (r: Option<ConfigError>)
    ensures r.None? <==> ActionAccepted(action)
    ensures r.Some? ==> r.value == InvalidAction(action)
  {
    if ActionAccepted(action) then None else Some(InvalidAction(action))
  }

  // ---------------------------------------------------------------------------------------------
  // getSanitizedExpression

  predicate NonEmptyNames(names: seq<string>) {
    forall i :: 0 <= i < |names| ==> names[i] != [] && '$' !in names[i]
  }

  /** The condition after the replacement loop has processed `names` in order: every
      occurrence of each name, as a substring, gets a `$` in front. */
  function RewriteNames(condition: string, names: seq<string>): string
    requires NonEmptyNames(names)
    decreases |names|
  {
    if names == [] then condition
    else
      var name := names[|names| - 1];
      ReplaceAll(RewriteNames(condition, names[..|names| - 1]), name, "$" + name)
  }

  /** Rewriting only inserts `$` characters. */
  lemma {:induction false} EraseRewriteNames(condition: string, names: seq<string>)
    requires NonEmptyNames(names)
    ensures Erase(RewriteNames(condition, names), '$') == Erase(condition, '$')
    decreases |names|
  {
    if names != [] {
      var name := names[|names| - 1];
      EraseRewriteNames(condition, names[..|names| - 1]);
      EraseReplaceAll(RewriteNames(condition, names[..|names| - 1]), name);
    }
  }

  lemma EraseWrapped(x: string)
    ensures Erase("return (" + x + ");", '$') == "return (" + Erase(x, '$') + ");"
  {
    EraseAppend("return (" + x, ");", '$');
    EraseAppend("return (", x, '$');
    ErasePlain("return (", '$');
    ErasePlain(");", '$');
  }

  /** `getSanitizedExpression`: the replacement loop over the allowed names, then the
      `return (...);` wrapper. */
  method SanitizedExpression(condition: string) returns (expression: string)
    ensures expression == "return (" + RewriteNames(condition, AllowedVariables()) + ");"
    ensures Erase(expression, '$') == "return (" + Erase(condition, '$') + ");"
  {
    var variables := AllowedVariables();
    AllowedNamesNonEmpty();
    expression := condition;
    for i := 0 to |variables|
      invariant expression == RewriteNames(condition, variables[..i])
    {
      assert variables[..i + 1][..i] == variables[..i];
      expression := ReplaceAll(expression, variables[i], "$" + variables[i]);
    }
    assert variables[..|variables|] == variables;
    EraseRewriteNames(condition, variables);
    EraseWrapped(RewriteNames(condition, variables));
    expression := "return (" + expression + ");";
  }

  lemma RewriteNamesNext(condition: string, names: seq<string>, k: nat)
    requires NonEmptyNames(names) && k < |names|
    ensures RewriteNames(condition, names[..k + 1])
         == ReplaceAll(RewriteNames(condition, names[..k]), names[k], "$" + names[k])
  {
    assert names[..k + 1][..k] == names[..k];
  }

  /** A name that does not occur leaves the text as it is. */
  lemma RewriteNamesSkip(condition: string, names: seq<string>, k: nat)
    requires NonEmptyNames(names) && k < |names|
    requires forall i :: !OccursAt(names[k], RewriteNames(condition, names[..k]), i)
    ensures RewriteNames(condition, names[..k + 1]) == RewriteNames(condition, names[..k])
  {
    RewriteNamesNext(condition, names, k);
    ReplaceAllAbsent(RewriteNames(condition, names[..k]), names[k], "$" + names[k]);
  }

  /** Once none of the remaining names occurs in the text, the rest of the loop changes nothing. */
  lemma {:induction false} RewriteNamesAbsentRest(condition: string, names: seq<string>, k: nat)
    requires NonEmptyNames(names) && k <= |names|
    requires forall j, i :: k <= j < |names| ==> !OccursAt(names[j], RewriteNames(condition, names[..k]), i)
    ensures RewriteNames(condition, names) == RewriteNames(condition, names[..k])
    decreases |names| - k
  {
    if k == |names| {
      assert names[..k] == names;
    } else {
      RewriteNamesNext(condition, names, k);
      ReplaceAllAbsent(RewriteNames(condition, names[..k]), names[k], "$" + names[k]);
      RewriteNamesAbsentRest(condition, names, k + 1);
    }
  }

  // ---------------------------------------------------------------------------------------------
  // The rewriting as intended: a `$` in front of every piece of the split

  /** The segments put back together, with a `$` in front of every piece. */
  function Dollared(segs: seq<Segment>): string {
    if segs == [] then []
    else (if segs[0].Piece? then "$" + segs[0].text else segs[0].text) + Dollared(segs[1..])
  }

  lemma {:induction false} DollaredErase(segs: seq<Segment>)
    ensures Erase(Dollared(segs), '$') == Erase(Concat(segs), '$')
  {
    if segs != [] {
      var t := segs[0].text;
      DollaredErase(segs[1..]);
      EraseAppend(if segs[0].Piece? then "$" + t else t, Dollared(segs[1..]), '$');
      EraseAppend(t, Concat(segs[1..]), '$');
      if segs[0].Piece? {
        EraseAppend("$", t, '$');
        ErasePlain("$"[1..], '$');
      }
    }
  }

  lemma {:induction false} DollaredAppend(a: seq<Segment>, b: seq<Segment>)
    ensures Dollared(a + b) == Dollared(a) + Dollared(b)
  {
    if a != [] {
      assert (a + b)[1..] == a[1..] + b;
      DollaredAppend(a[1..], b);
    } else {
      assert a + b == b;
    }
  }

  /** `getSanitizedExpression` as its purpose describes it: every variable of the condition, and
      nothing else, gets its `$`. Taking `$` out again gives back the wrapped condition. */
  function IntendedExpression(condition: string): (expression: string)
    ensures Erase(expression, '$') == "return (" + Erase(condition, '$') + ");"
  {
    DollaredErase(Segments(condition));
    SegmentsCover(condition);
    EraseWrapped(Dollared(Segments(condition)));
    "return (" + Dollared(Segments(condition)) + ");"
  }

  /** The intended rewriting of a condition built piece by piece, one step at a time. */
  lemma DollaredStep(s: string, w: string, before: string, op: string, after: string, rest: string)
    requires s == w + before + op + after + rest
    requires IsPlainWord(w) && AllSpaces(before) && IsOperatorToken(op) && AllSpaces(after)
    requires rest == [] || !IsSpace(rest[0])
    ensures Dollared(Segments(s)) == (if w == [] then [] else "$" + w) + (before + op + after) + Dollared(Segments(rest))
  {
    SegmentsStep(s, w, before, op, after, rest);
    DollaredHead(Segments(s), w, before + op + after, Segments(rest));
  }

  lemma DollaredHead(segs: seq<Segment>, w: string, d: string, tail: seq<Segment>)
    requires segs == (if w == [] then [] else [Piece(w)]) + [Delimiter(d)] + tail
    ensures Dollared(segs) == (if w == [] then [] else "$" + w) + d + Dollared(tail)
  {
    if w == [] {
      assert segs[1..] == tail;
    } else {
      assert segs[1..] == [Delimiter(d)] + tail;
      assert segs[1..][1..] == tail;
    }
  }

  /** A number literal comes out of the intended rewriting unchanged. */
  lemma {:induction false} NumberDollared(s: string)
    requires forall k :: 0 <= k < |s| ==> IsDigit(s[k]) || s[k] == '.'
    ensures Dollared(Segments(s)) == s
    decreases |s|
  {
    if s == [] {
      assert FirstDelimiter(s, 0) == 0;
    } else {
      DollaredStep(s, "", "", s[..1], "", s[1..]);
      NumberDollared(s[1..]);
      assert "" + s[..1] + "" == s[..1];
      assert s == s[..1] + s[1..];
    }
  }
}
