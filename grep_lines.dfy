/**
 * The string operations the two grep searches are built from, and the
 * specification of what a search returns.
 *
 * - Lines: `str::lines`, lines split at '\n', a '\r' directly before the
 *   '\n' dropped, and no empty last line after a final '\n'.
 * - Contains: `str::contains` with a string pattern.
 * - Lower: `to_lowercase`, restricted to ASCII letters.
 * - Selected: the lines a search keeps, in their original order.
 */
module GrepLines {

  /** The index of the first '\n' at or after i, or |s| when there is none. */
  function LineEnd(s: string, i: nat): (j: nat)
    requires i <= |s|
    ensures i <= j <= |s|
    ensures forall k :: i <= k < j ==> s[k] != '\n'
    ensures j < |s| ==> s[j] == '\n'
    decreases |s| - i
  {
    if i == |s| || s[i] == '\n' then i else LineEnd(s, i + 1)
  }

  /** A line ended by "\r\n" loses its '\r' as well as its '\n'. */
  function StripCarriageReturn(line: string): string
  {
    if |line| > 0 && line[|line| - 1] == '\r' then line[..|line| - 1] else line
  }

  /** `str::lines`: the lines of s, without their line endings. */
  function Lines(s: string): (lines: seq<string>)
    ensures s == [] ==> lines == []
    ensures forall k :: 0 <= k < |lines| ==> '\n' !in lines[k]
    decreases |s|
  {
    if s == [] then []
    else
      var j := LineEnd(s, 0);
      if j == |s| then [s]
      else [StripCarriageReturn(s[..j])] + Lines(s[j + 1..])
  }

  /** A final '\n' ends the last line and does not start an empty one. */
  lemma LinesFinalNewline(line: string)
    requires '\n' !in line
    ensures Lines(line + "\n") == [StripCarriageReturn(line)]
  {
    var s := line + "\n";
    assert forall k :: 0 <= k < |line| ==> s[k] == line[k] && s[k] != '\n';
    var j := LineEnd(s, 0);
    assert s[|line|] == '\n';
    assert j == |line|;
    assert s[..|line|] == line;
    assert s[|line| + 1..] == [];
  }

  /** q occurs in s starting at index i. */
  predicate OccursAt(s: string, q: string, i: nat)
  {
    i + |q| <= |s| && s[i..i + |q|] == q
  }

  /** `str::contains`: q occurs in s as a contiguous substring. */
  predicate Contains(s: string, q: string)
  {
    exists i: nat | i <= |s| :: OccursAt(s, q, i)
  }

  /**
   * What `str::contains` gives at the edges: a query longer than the text
   * never occurs, a prefix always does, and a text of the query's own
   * length contains it only when the two are equal.
   */
  lemma ContainsBounds(s: string, q: string)
    ensures Contains(s, q) ==> |q| <= |s|
    ensures q <= s ==> Contains(s, q)
    ensures |q| == |s| ==> (Contains(s, q) <==> q == s)
  {
    if q <= s {
      assert OccursAt(s, q, 0);
    }
    if |q| == |s| && Contains(s, q) {
      var i: nat :| i <= |s| && OccursAt(s, q, i);
      assert i == 0 && s[..|q|] == s;
    }
  }

  /** ASCII lower-casing of one character. */
  function LowerChar(c: char): char
  {
    if 'A' <= c <= 'Z' then (c as int + 32) as char else c
  }

  /** ASCII lower-casing of a string, character by character. */
  function Lower(s: string): (r: string)
    ensures |r| == |s|
    ensures forall k :: 0 <= k < |s| ==> r[k] == LowerChar(s[k])
  {
    seq(|s|, k requires 0 <= k < |s| => LowerChar(s[k]))
  }

  /** Whether a search keeps line: by substring, or by substring after lower-casing both. */
  predicate Hit(line: string, query: string, ignoreCase: bool)
  {
    if ignoreCase then Contains(Lower(line), Lower(query)) else Contains(line, query)
  }

  /** The lines a search keeps, in their original order. */
  function Selected(lines: seq<string>, query: string, ignoreCase: bool): seq<string>
  {
    if lines == [] then []
    else
      var rest := Selected(lines[..|lines| - 1], query, ignoreCase);
      var last := lines[|lines| - 1];
      if Hit(last, query, ignoreCase) then rest + [last] else rest
  }

  /** s is a subsequence of t: t with some elements left out, the rest in order. */
  predicate IsSubsequence(s: seq<string>, t: seq<string>)
    decreases |t|
  {
    if s == [] then true
    else if t == [] then false
    else if s[|s| - 1] == t[|t| - 1] then IsSubsequence(s[..|s| - 1], t[..|t| - 1])
    else IsSubsequence(s, t[..|t| - 1])
  }

  /** Every string contains the empty query, so an empty query keeps every line. */
  lemma EmptyQueryKeepsAll(lines: seq<string>)
    ensures Selected(lines, "", false) == lines
  {
    if lines != [] {
      EmptyQueryKeepsAll(lines[..|lines| - 1]);
      assert OccursAt(lines[|lines| - 1], "", 0);
    }
  }

  /** Every line Selected keeps is a line of the input that the search hits. */
  lemma {:induction false} SelectedSound(lines: seq<string>, query: string, ignoreCase: bool)
    ensures forall r :: r in Selected(lines, query, ignoreCase) ==> r in lines && Hit(r, query, ignoreCase)
  {
    if lines != [] {
      SelectedSound(lines[..|lines| - 1], query, ignoreCase);
    }
  }

  /** Every line of the input that the search hits is kept. */
  lemma {:induction false} SelectedComplete(lines: seq<string>, query: string, ignoreCase: bool)
    ensures forall l :: l in lines && Hit(l, query, ignoreCase) ==> l in Selected(lines, query, ignoreCase)
  {
    if lines != [] {
      var init := lines[..|lines| - 1];
      SelectedComplete(init, query, ignoreCase);
      assert lines == init + [lines[|lines| - 1]];
    }
  }

  /** Searching a concatenation is searching each part: order is kept. */
  lemma {:induction false} SelectedAppend(a: seq<string>, b: seq<string>, query: string, ignoreCase: bool)
    ensures Selected(a + b, query, ignoreCase) == Selected(a, query, ignoreCase) + Selected(b, query, ignoreCase)
    decreases |b|
  {
    if b == [] {
      assert a + b == a;
    } else {
      var init := b[..|b| - 1];
      SelectedAppend(a, init, query, ignoreCase);
      assert (a + b)[..|a + b| - 1] == a + init;
    }
  }

  /** The kept lines are a subsequence of the input. */
  lemma {:induction false} SelectedIsSubsequence(lines: seq<string>, query: string, ignoreCase: bool)
    ensures IsSubsequence(Selected(lines, query, ignoreCase), lines)
    decreases |lines|
  {
    if lines != [] {
      var init := lines[..|lines| - 1];
      SelectedIsSubsequence(init, query, ignoreCase);
      var rest := Selected(init, query, ignoreCase);
      if Hit(lines[|lines| - 1], query, ignoreCase) {
        assert (rest + [lines[|lines| - 1]])[..|rest|] == rest;
      } else {
        SubsequenceExtend(rest, init, lines[|lines| - 1]);
      }
    }
  }

  /** Appending an element to t keeps s a subsequence of it. */
  lemma {:induction false} SubsequenceExtend(s: seq<string>, t: seq<string>, x: string)
    requires IsSubsequence(s, t)
    ensures IsSubsequence(s, t + [x])
    decreases |t|, 1
  {
    assert (t + [x])[..|t|] == t;
    if s != [] && s[|s| - 1] == x {
      SubsequenceDropLast(s, t);
    }
  }

  /** Dropping the last element of s keeps it a subsequence of t. */
  lemma {:induction false} SubsequenceDropLast(s: seq<string>, t: seq<string>)
    requires s != [] && IsSubsequence(s, t)
    ensures IsSubsequence(s[..|s| - 1], t)
    decreases |t|, 0
  {
    var init := t[..|t| - 1];
    assert init + [t[|t| - 1]] == t;
    if s[|s| - 1] != t[|t| - 1] {
      SubsequenceDropLast(s, init);
    }
    SubsequenceExtend(s[..|s| - 1], init, t[|t| - 1]);
  }

  /** A subsequence is no longer than the sequence it is taken from. */
  lemma {:induction false} SubsequenceShorter(s: seq<string>, t: seq<string>)
    requires IsSubsequence(s, t)
    ensures |s| <= |t|
    decreases |t|
  {
    if s != [] {
      if s[|s| - 1] == t[|t| - 1] {
        SubsequenceShorter(s[..|s| - 1], t[..|t| - 1]);
      } else {
        SubsequenceShorter(s, t[..|t| - 1]);
      }
    }
  }

  /** A search never returns more lines than its input has. */
  lemma SelectedLength(lines: seq<string>, query: string, ignoreCase: bool)
    ensures |Selected(lines, query, ignoreCase)| <= |lines|
  {
    SelectedIsSubsequence(lines, query, ignoreCase);
    SubsequenceShorter(Selected(lines, query, ignoreCase), lines);
  }

  /** Searching one line keeps it exactly when the search hits it. */
  lemma SelectedSingle(line: string, query: string, ignoreCase: bool)
    ensures Selected([line], query, ignoreCase) == if Hit(line, query, ignoreCase) then [line] else []
  {
    assert [line][..0] == [];
  }

  /** A query whose first character does not occur in s does not occur in s. */
  lemma FirstCharAbsent(s: string, q: string)
    requires q != [] && q[0] !in s
    ensures !Contains(s, q)
  {
  }

  /** An occurrence cannot start inside a prefix that lacks the query's first character. */
  lemma SkipPrefix(a: string, b: string, q: string)
    requires q != [] && q[0] !in a
    ensures Contains(a + b, q) <==> Contains(b, q)
  {
    if Contains(a + b, q) {
      var i: nat :| i <= |a + b| && OccursAt(a + b, q, i);
      assert (a + b)[i] == (a + b)[i..i + |q|][0];
      assert (a + b)[i..i + |q|] == b[i - |a|..i - |a| + |q|];
      assert OccursAt(b, q, i - |a|);
    }
    if Contains(b, q) {
      var j: nat :| j <= |b| && OccursAt(b, q, j);
      assert (a + b)[j + |a|..j + |a| + |q|] == b[j..j + |q|];
      assert OccursAt(a + b, q, j + |a|);
    }
  }

  /** A query that starts the suffix b occurs in a + b. */
  lemma ContainsSuffix(a: string, b: string, q: string)
    requires q <= b
    ensures Contains(a + b, q)
  {
    assert (a + b)[|a|..|a| + |q|] == b[..|q|];
    assert OccursAt(a + b, q, |a|);
  }

  /** When the query and s differ at offset k, no occurrence starts at index 0. */
  lemma StepOver(s: string, q: string, k: nat)
    requires |s| > 0 && k < |q| && k < |s| && s[k] != q[k]
    ensures Contains(s, q) <==> Contains(s[1..], q)
  {
    if Contains(s, q) {
      var i: nat :| i <= |s| && OccursAt(s, q, i);
      assert s[1..][i - 1..i - 1 + |q|] == s[i..i + |q|];
      assert OccursAt(s[1..], q, i - 1);
    }
    if Contains(s[1..], q) {
      var j: nat :| j <= |s[1..]| && OccursAt(s[1..], q, j);
      assert s[j + 1..j + 1 + |q|] == s[1..][j..j + |q|];
      assert OccursAt(s, q, j + 1);
    }
  }

  /** Splitting a text whose first line ends at a '\n'. */
  lemma LinesCons(line: string, rest: string)
    requires '\n' !in line
    ensures Lines(line + "\n" + rest) == [StripCarriageReturn(line)] + Lines(rest)
  {
    var s := line + "\n" + rest;
    LineEndAt(s, line);
    assert s[..|line|] == line;
    assert s[|line| + 1..] == rest;
  }

  /** A last line without a line ending is returned whole. */
  lemma LinesLast(line: string)
    requires line != [] && '\n' !in line
    ensures Lines(line) == [line]
  {
    LineEndAt(line, line);
  }

  lemma LineEndAt(s: string, line: string)
    requires line <= s && '\n' !in line
    requires |line| < |s| ==> s[|line|] == '\n'
    ensures LineEnd(s, 0) == |line|
  {
  }
}
