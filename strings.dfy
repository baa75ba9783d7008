/** The PHP string built-ins that control.php relies on, modelled on `seq<char>`:
    `explode` on one character, `preg_replace` and `preg_match` with a pattern that is a plain
    word (no regular-expression metacharacters), `FILTER_SANITIZE_NUMBER_FLOAT` with
    `FILTER_FLAG_ALLOW_FRACTION`, and the script's own `isInteger`. */
module Strings {

  datatype Option<T> = None | Some(value: T)

  /** `\d` of PCRE without Unicode properties. */
  predicate IsDigit(c: char) { '0' <= c <= '9' }

  /** `\s` of PCRE2 without Unicode properties: space, HT, LF, VT, FF and CR. */
  predicate IsSpace(c: char) { c == ' ' || '\t' <= c <= '\r' }

  predicate AllDigits(s: string) { forall k :: 0 <= k < |s| ==> IsDigit(s[k]) }

  // ---------------------------------------------------------------------------------------------
  // explode($sep, $s)

  /** `explode` with a one-character separator: the maximal runs between separators, in order,
      and at least one part (the empty string gives `[""]`). */
  function Split(s: string, sep: char): (parts: seq<string>)
    ensures |parts| >= 1
    ensures forall k :: 0 <= k < |parts| ==> sep !in parts[k]
    decreases |s|
  {
    if s == [] then [""]
    else
      var rest := Split(s[1..], sep);
      if s[0] == sep then [""] + rest else [[s[0]] + rest[0]] + rest[1..]
  }

  /** `implode`: the inverse of `Split`. */
  function Join(parts: seq<string>, sep: char): string
    decreases |parts|
  {
    if parts == [] then ""
    else if |parts| == 1 then parts[0]
    else parts[0] + [sep] + Join(parts[1..], sep)
  }

  lemma {:induction false} JoinSplit(s: string, sep: char)
    ensures Join(Split(s, sep), sep) == s
    decreases |s|
  {
    if s != [] {
      var rest := Split(s[1..], sep);
      JoinSplit(s[1..], sep);
      if s[0] == sep {
        assert Split(s, sep) == [""] + rest;
      } else {
        var parts := Split(s, sep);
        assert parts == [[s[0]] + rest[0]] + rest[1..];
        if |rest| == 1 {
          assert Join(parts, sep) == [s[0]] + rest[0];
        } else {
          assert parts[1..] == rest[1..];
          assert Join(rest, sep) == rest[0] + [sep] + Join(rest[1..], sep);
          assert Join(parts, sep) == [s[0]] + rest[0] + [sep] + Join(rest[1..], sep);
        }
      }
    }
  }

  lemma {:induction false} SplitJoin(parts: seq<string>, sep: char)
    requires |parts| >= 1
    requires forall k :: 0 <= k < |parts| ==> sep !in parts[k]
    ensures Split(Join(parts, sep), sep) == parts
    decreases |parts|, |parts[0]|
  {
    if parts[0] == [] {
      if |parts| > 1 {
        SplitJoin(parts[1..], sep);
        assert Join(parts, sep) == [sep] + Join(parts[1..], sep);
        assert Join(parts, sep)[1..] == Join(parts[1..], sep);
      }
    } else {
      var tail := [parts[0][1..]] + parts[1..];
      assert forall k :: 0 <= k < |tail| ==> sep !in tail[k] by {
        forall k | 0 <= k < |tail| ensures sep !in tail[k] {
          if k == 0 {
            assert forall c :: c in parts[0][1..] ==> c in parts[0];
          } else {
            assert tail[k] == parts[k];
          }
        }
      }
      SplitJoin(tail, sep);
      var s := Join(parts, sep);
      assert parts[0][0] in parts[0];
      if |parts| == 1 {
        assert s == parts[0];
        assert s[1..] == Join(tail, sep);
      } else {
        assert tail[1..] == parts[1..];
        assert s[1..] == Join(tail, sep);
      }
      assert s[0] == parts[0][0] != sep;
      assert [s[0]] + tail[0] == parts[0];
      assert parts == [[s[0]] + tail[0]] + tail[1..];
    }
  }

  // ---------------------------------------------------------------------------------------------
  // preg_replace('/' . $pat . '/', $rep, $s) and preg_match('/' . $pat . '/', $s)

  /** Whether `t` occurs in `s` at offset `i`. */
  predicate OccursAt(t: string, s: string, i: int) {
    0 <= i && i + |t| <= |s| && s[i..i + |t|] == t
  }

  /** Unanchored search for a literal word, as `preg_match` does, scanning left to right. */
  function Contains(s: string, t: string): (r: bool)
    ensures r <==> exists i :: OccursAt(t, s, i)
    decreases |s|
  {
    if |s| < |t| then false
    else if s[..|t|] == t then (assert OccursAt(t, s, 0); true)
    else
      var r := Contains(s[1..], t);
      if r then
        var i :| OccursAt(t, s[1..], i);
        assert OccursAt(t, s, i + 1) by { assert s[i + 1..i + 1 + |t|] == s[1..][i..i + |t|]; }
        true
      else
        assert forall i :: OccursAt(t, s, i) ==> i == 0 || OccursAt(t, s[1..], i - 1) by {
          forall i | OccursAt(t, s, i) && i != 0 ensures OccursAt(t, s[1..], i - 1) {
            assert s[1..][i - 1..i - 1 + |t|] == s[i..i + |t|];
          }
        }
        false
  }

  /** Every non-overlapping occurrence of the word `pat`, found left to right, replaced by `rep`,
      as `preg_replace` does with a pattern free of metacharacters. */
  function ReplaceAll(s: string, pat: string, rep: string): string
    requires pat != []
    decreases |s|
  {
    if |s| < |pat| then s
    else if s[..|pat|] == pat then rep + ReplaceAll(s[|pat|..], pat, rep)
    else [s[0]] + ReplaceAll(s[1..], pat, rep)
  }

  /** Replacing a pattern that does not occur changes nothing. */
  lemma {:induction false} ReplaceAllAbsent(s: string, pat: string, rep: string)
    requires pat != []
    requires forall i :: !OccursAt(pat, s, i)
    ensures ReplaceAll(s, pat, rep) == s
    decreases |s|
  {
    if |s| >= |pat| {
      assert !OccursAt(pat, s, 0);
      forall i ensures !OccursAt(pat, s[1..], i) {
        assert !OccursAt(pat, s, i + 1);
        if 0 <= i && i + |pat| <= |s| - 1 {
          assert s[1..][i..i + |pat|] == s[i + 1..i + 1 + |pat|];
        }
      }
      ReplaceAllAbsent(s[1..], pat, rep);
      assert s == [s[0]] + s[1..];
    }
  }

  /** A single occurrence is replaced when none starts inside `a` and none lies in `b`. */
  lemma {:induction false} ReplaceAllOnce(a: string, pat: string, b: string, rep: string)
    requires pat != []
    requires forall i :: 0 <= i < |a| ==> !OccursAt(pat, a + pat + b, i)
    requires forall i :: !OccursAt(pat, b, i)
    ensures ReplaceAll(a + pat + b, pat, rep) == a + rep + b
    decreases |a|
  {
    var s := a + pat + b;
    if a == [] {
      assert s == pat + b;
      assert s[..|pat|] == pat && s[|pat|..] == b;
      ReplaceAllAbsent(b, pat, rep);
    } else {
      assert !OccursAt(pat, s, 0);
      var t := a[1..] + pat + b;
      assert s[1..] == t;
      forall i | 0 <= i < |a[1..]| ensures !OccursAt(pat, t, i) {
        assert !OccursAt(pat, s, i + 1);
        if i + |pat| <= |t| {
          assert t[i..i + |pat|] == s[i + 1..i + 1 + |pat|];
        }
      }
      ReplaceAllOnce(a[1..], pat, b, rep);
      assert a + rep + b == [a[0]] + (a[1..] + rep + b);
    }
  }

  /** Text in which the first character of `pat` does not occur passes through unchanged, and
      the replacement goes on after it. */
  lemma {:induction false} ReplaceAllHead(x: string, y: string, pat: string, rep: string)
    requires pat != [] && pat[0] !in x
    ensures ReplaceAll(x + y, pat, rep) == x + ReplaceAll(y, pat, rep)
    decreases |x|
  {
    if x == [] {
      assert x + y == y;
    } else {
      var s := x + y;
      assert s[0] == x[0] && s[1..] == x[1..] + y;
      if |s| >= |pat| {
        assert s[..|pat|][0] != pat[0];
      }
      ReplaceAllHead(x[1..], y, pat, rep);
      assert x + ReplaceAll(y, pat, rep) == [x[0]] + (x[1..] + ReplaceAll(y, pat, rep));
    }
  }

  /** The replacement splits at a boundary that no occurrence can cross: the first character
      after it does not occur in `pat`. */
  lemma {:induction false} ReplaceAllSplit(x: string, y: string, pat: string, rep: string)
    requires pat != [] && (y == [] || y[0] !in pat)
    ensures ReplaceAll(x + y, pat, rep) == ReplaceAll(x, pat, rep) + ReplaceAll(y, pat, rep)
    decreases |x|
  {
    var s := x + y;
    if x == [] {
      assert s == y;
    } else if |x| >= |pat| && x[..|pat|] == pat {
      assert s[..|pat|] == pat && s[|pat|..] == x[|pat|..] + y;
      ReplaceAllSplit(x[|pat|..], y, pat, rep);
    } else if |s| >= |pat| {
      if |x| >= |pat| {
        assert s[..|pat|] == x[..|pat|];
      } else {
        assert s[..|pat|][|x|] == y[0];
      }
      assert s[1..] == x[1..] + y;
      ReplaceAllSplit(x[1..], y, pat, rep);
    }
  }

  /** Only the positions in `at` could start `pat` (its first character occurs nowhere else),
      and none of them does. */
  lemma AbsentUnlessAt(s: string, pat: string, at: set<int>)
    requires pat != []
    requires forall k :: 0 <= k < |s| && k !in at ==> s[k] != pat[0]
    requires forall k :: k in at ==> !OccursAt(pat, s, k)
    ensures forall i :: !OccursAt(pat, s, i)
  {
    forall i ensures !OccursAt(pat, s, i) {
      if 0 <= i && i + |pat| <= |s| {
        assert s[i..i + |pat|][0] == s[i];
      }
    }
  }

  /** One differing character rules an occurrence out. */
  lemma MismatchAt(s: string, pat: string, i: nat, j: nat)
    requires j < |pat| && i + j < |s| && s[i + j] != pat[j]
    ensures !OccursAt(pat, s, i)
  {
    if i + |pat| <= |s| {
      assert s[i..i + |pat|][j] == s[i + j];
    }
  }

  /** `s` with every occurrence of the character `c` deleted. */
  function Erase(s: string, c: char): (r: string)
    ensures c !in r
    decreases |s|
  {
    if s == [] then [] else (if s[0] == c then [] else [s[0]]) + Erase(s[1..], c)
  }

  lemma {:induction false} EraseAppend(a: string, b: string, c: char)
    ensures Erase(a + b, c) == Erase(a, c) + Erase(b, c)
    decreases |a|
  {
    if a == [] {
      assert a + b == b;
    } else {
      var h := if a[0] == c then [] else [a[0]];
      assert (a + b)[0] == a[0] && (a + b)[1..] == a[1..] + b;
      EraseAppend(a[1..], b, c);
      assert Erase(a + b, c) == h + Erase(a[1..] + b, c);
      assert Erase(a, c) == h + Erase(a[1..], c);
    }
  }

  /** Prefixing every occurrence of a word with `$` inserts `$` characters and changes
      nothing else. */
  lemma {:induction false} EraseReplaceAll(s: string, pat: string)
    requires pat != [] && '$' !in pat
    ensures Erase(ReplaceAll(s, pat, "$" + pat), '$') == Erase(s, '$')
    decreases |s|
  {
    if |s| >= |pat| {
      if s[..|pat|] == pat {
        EraseReplaceAll(s[|pat|..], pat);
        EraseReplaceHead(s, pat);
      } else {
        EraseReplaceAll(s[1..], pat);
        EraseReplaceSkip(s, pat);
      }
    }
  }

  lemma EraseReplaceHead(s: string, pat: string)
    requires pat != [] && '$' !in pat
    requires |s| >= |pat| && s[..|pat|] == pat
    requires Erase(ReplaceAll(s[|pat|..], pat, "$" + pat), '$') == Erase(s[|pat|..], '$')
    ensures Erase(ReplaceAll(s, pat, "$" + pat), '$') == Erase(s, '$')
  {
    var rep, rest := "$" + pat, s[|pat|..];
    assert ReplaceAll(s, pat, rep) == rep + ReplaceAll(rest, pat, rep);
    EraseAppend(rep, ReplaceAll(rest, pat, rep), '$');
    EraseDollar(pat);
    assert s == pat + rest;
    EraseAppend(pat, rest, '$');
    ErasePlain(pat, '$');
  }

  lemma EraseDollar(pat: string)
    requires '$' !in pat
    ensures Erase("$" + pat, '$') == pat
  {
    var rep := "$" + pat;
    assert rep[0] == '$' && rep[1..] == pat;
    ErasePlain(pat, '$');
  }

  lemma EraseReplaceSkip(s: string, pat: string)
    requires pat != []
    requires |s| >= |pat| && s[..|pat|] != pat
    requires Erase(ReplaceAll(s[1..], pat, "$" + pat), '$') == Erase(s[1..], '$')
    ensures Erase(ReplaceAll(s, pat, "$" + pat), '$') == Erase(s, '$')
  {
    var rep, rest := "$" + pat, s[1..];
    assert ReplaceAll(s, pat, rep) == [s[0]] + ReplaceAll(rest, pat, rep);
    EraseAppend([s[0]], ReplaceAll(rest, pat, rep), '$');
    assert s == [s[0]] + rest;
    EraseAppend([s[0]], rest, '$');
  }

  lemma {:induction false} ErasePlain(s: string, c: char)
    requires c !in s
    ensures Erase(s, c) == s
    decreases |s|
  {
    if s != [] {
      assert c !in s[1..] by { assert forall x :: x in s[1..] ==> x in s; }
      ErasePlain(s[1..], c);
    }
  }

  // ---------------------------------------------------------------------------------------------
  // filter_var($s, FILTER_SANITIZE_NUMBER_FLOAT, FILTER_FLAG_ALLOW_FRACTION)

  /** The characters that survive the float sanitiser with fractions allowed. */
  predicate IsFloatChar(c: char) { IsDigit(c) || c == '+' || c == '-' || c == '.' }

  /** Deletes every character that is not a digit, `+`, `-` or `.`, keeping the rest in order. */
  function SanitizeFloat(s: string): (r: string)
    ensures |r| <= |s|
    ensures forall k :: 0 <= k < |r| ==> IsFloatChar(r[k])
    decreases |s|
  {
    if s == [] then [] else (if IsFloatChar(s[0]) then [s[0]] else []) + SanitizeFloat(s[1..])
  }

  /** A string made only of kept characters passes through unchanged. */
  lemma {:induction false} SanitizeFloatKeeps(s: string)
    requires forall k :: 0 <= k < |s| ==> IsFloatChar(s[k])
    ensures SanitizeFloat(s) == s
    decreases |s|
  {
    if s != [] { SanitizeFloatKeeps(s[1..]); }
  }

  /** A string without a single kept character is deleted entirely. */
  lemma {:induction false} SanitizeFloatDrops(s: string)
    requires forall k :: 0 <= k < |s| ==> !IsFloatChar(s[k])
    ensures SanitizeFloat(s) == []
    decreases |s|
  {
    if s != [] { SanitizeFloatDrops(s[1..]); }
  }

  /** Sanitising twice is sanitising once. */
  lemma SanitizeFloatIdempotent(s: string)
    ensures SanitizeFloat(SanitizeFloat(s)) == SanitizeFloat(s)
  {
    SanitizeFloatKeeps(SanitizeFloat(s));
  }

  /** Sanitising works character by character, so it distributes over concatenation. */
  lemma {:induction false} SanitizeFloatAppend(a: string, b: string)
    ensures SanitizeFloat(a + b) == SanitizeFloat(a) + SanitizeFloat(b)
    decreases |a|
  {
    if a == [] {
      assert a + b == b;
    } else {
      assert (a + b)[0] == a[0] && (a + b)[1..] == a[1..] + b;
      SanitizeFloatAppend(a[1..], b);
    }
  }

  // ---------------------------------------------------------------------------------------------
  // isInteger($value): preg_match('/^\d+$/', $value)

  /** `s` without one final line feed, if it has one: PCRE's `$` (no D modifier) also matches
      just before a final "\n". */
  function WithoutFinalNewline(s: string): string {
    if s != [] && s[|s| - 1] == '\n' then s[..|s| - 1] else s
  }

  /** One or more ASCII digits, optionally followed by a single line feed. */
  function IsInteger(s: string): (r: bool)
    ensures r <==> (|WithoutFinalNewline(s)| > 0 && AllDigits(WithoutFinalNewline(s)))
    ensures r ==> |s| > 0 && IsDigit(s[0])
  {
    var t := WithoutFinalNewline(s);
    t != [] && DigitsOnly(t)
  }

  /** A left-to-right scan, the way the anchored pattern consumes `\d+`. */
  function DigitsOnly(s: string): (r: bool)
    ensures r <==> AllDigits(s)
    decreases |s|
  {
    s == [] || (IsDigit(s[0]) && DigitsOnly(s[1..]))
  }

  // ---------------------------------------------------------------------------------------------
  // Decimal rendering of integers (PHP's int-to-string conversion and date() fields)

  function DigitChar(d: nat): (c: char)
    requires d < 10
    ensures IsDigit(c) && c as int - '0' as int == d
  {
    ('0' as int + d) as char
  }

  /** The decimal numeral of `n`, without leading zeros. */
  function Decimal(n: nat): (s: string)
    ensures |s| > 0 && AllDigits(s)
    ensures n >= 10 ==> s[0] != '0'
    decreases n
  {
    if n < 10 then [DigitChar(n)]
    else
      var high := Decimal(n / 10);
      high + [DigitChar(n % 10)]
  }

  /** The value of a string of digits. */
  function DigitsValue(s: string): nat
    requires AllDigits(s)
    decreases |s|
  {
    if s == [] then 0 else DigitsValue(s[..|s| - 1]) * 10 + (s[|s| - 1] as int - '0' as int)
  }

  /** Reading back a rendered numeral gives the number: decimal rendering is injective. */
  lemma {:induction false} DecimalValue(n: nat)
    ensures DigitsValue(Decimal(n)) == n
    decreases n
  {
    if n >= 10 {
      DecimalValue(n / 10);
      var s := Decimal(n);
      assert s[..|s| - 1] == Decimal(n / 10);
    }
  }

  /** Every rendered numeral passes `isInteger`, with or without a final line feed. */
  lemma IsIntegerDecimal(n: nat)
    ensures IsInteger(Decimal(n))
    ensures IsInteger(Decimal(n) + "\n")
  {
    var s := Decimal(n) + "\n";
    assert WithoutFinalNewline(s) == Decimal(n);
  }

  /** `isInteger` rejects signs, spaces and the empty string. */
  lemma IsIntegerRejects()
    ensures !IsInteger("") && !IsInteger("\n") && !IsInteger("-1") && !IsInteger(" 1")
    ensures !IsInteger("1\n\n")
  {
    assert WithoutFinalNewline("1\n\n") == "1\n";
    assert !IsDigit("1\n"[1]);
  }
}
