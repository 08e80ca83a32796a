/** String helpers with the meaning Rust's `str` methods give them: `split` on a
    one-character pattern, `join`, `trim`, `replace` and ASCII upper-casing. */
module Strings {

  /** The pieces of `s` between the occurrences of `c`, as `s.split(c)` yields
      them: there is always at least one piece. */
  function Split(s: string, c: char): (parts: seq<string>)
    ensures |parts| >= 1
  {
    if s == [] then [""]
    else
      var rest := Split(s[1..], c);
      if s[0] == c then [""] + rest
      else [[s[0]] + rest[0]] + rest[1..]
  }

  /** `parts.join(sep)`. */
  function Join(parts: seq<string>, sep: string): string
  {
    if |parts| == 0 then ""
    else if |parts| == 1 then parts[0]
    else parts[0] + sep + Join(parts[1..], sep)
  }

  /** Joining two non-empty lists puts one separator between their joins. */
  lemma {:induction false} JoinAppend(xs: seq<string>, ys: seq<string>, sep: string)
    requires |xs| > 0 && |ys| > 0
    ensures Join(xs + ys, sep) == Join(xs, sep) + sep + Join(ys, sep)
  {
    if |xs| > 1 {
      JoinAppend(xs[1..], ys, sep);
      assert (xs + ys)[1..] == xs[1..] + ys;
    } else {
      assert (xs + ys)[1..] == ys;
    }
  }

  /** A string without `c` splits into itself alone, and only such a string does. */
  lemma {:induction false} SplitWithout(s: string, c: char)
    ensures c !in s <==> Split(s, c) == [s]
    ensures c !in s <==> |Split(s, c)| == 1
  {
    if s != [] {
      SplitWithout(s[1..], c);
      assert s == [s[0]] + s[1..];
    }
  }

  /** No piece of a split holds the separator. */
  lemma {:induction false} SplitPiecesFree(s: string, c: char)
    ensures forall k :: 0 <= k < |Split(s, c)| ==> c !in Split(s, c)[k]
  {
    if s != [] {
      SplitPiecesFree(s[1..], c);
    }
  }

  /** Splitting `a + [c] + b`, where `a` holds no `c`, cuts exactly at that `c`. */
  lemma {:induction false} SplitAfterFirst(a: string, c: char, b: string)
    requires c !in a
    ensures Split(a + [c] + b, c) == [a] + Split(b, c)
  {
    if a == [] {
      assert a + [c] + b == [c] + b;
      assert ([c] + b)[1..] == b;
    } else {
      SplitAfterFirst(a[1..], c, b);
      assert (a + [c] + b)[1..] == a[1..] + [c] + b;
      assert a == [a[0]] + a[1..];
    }
  }

  /** Joining the pieces of a split with the same character gives back the string. */
  lemma {:induction false} JoinSplit(s: string, c: char)
    ensures Join(Split(s, c), [c]) == s
  {
    if s != [] {
      var rest := Split(s[1..], c);
      JoinSplit(s[1..], c);
      assert s == [s[0]] + s[1..];
      if s[0] != c && |rest| > 1 {
        assert Join([[s[0]] + rest[0]] + rest[1..], [c]) == [s[0]] + rest[0] + [c] + Join(rest[1..], [c]);
      }
    }
  }

  /** Splitting a join of pieces free of `c` at `c` gives the pieces back. */
  lemma {:induction false} SplitJoin(parts: seq<string>, c: char)
    requires |parts| >= 1
    requires forall k :: 0 <= k < |parts| ==> c !in parts[k]
    ensures Split(Join(parts, [c]), c) == parts
  {
    if |parts| == 1 {
      SplitWithout(parts[0], c);
    } else {
      SplitJoin(parts[1..], c);
      SplitAfterFirst(parts[0], c, Join(parts[1..], [c]));
    }
  }

  /** The first piece of a split is the longest prefix of `s` free of `c`. */
  lemma {:induction false} FirstPiece(s: string, c: char)
    ensures var p := Split(s, c)[0];
      |p| <= |s| && p == s[..|p|] && c !in p && (|p| < |s| ==> s[|p|] == c)
  {
    if s != [] {
      FirstPiece(s[1..], c);
    }
  }

  /** The last piece of a split is the longest suffix of `s` free of `c`. */
  lemma {:induction false} LastPiece(s: string, c: char)
    ensures var parts := Split(s, c);
      var p := parts[|parts| - 1];
      |p| <= |s| && p == s[|s| - |p|..] && c !in p && (|p| < |s| ==> s[|s| - |p| - 1] == c)
  {
    if s != [] {
      LastPiece(s[1..], c);
      SplitWithout(s[1..], c);
      var rest := Split(s[1..], c);
      var p := rest[|rest| - 1];
      assert s[1..][|s| - 1 - |p|..] == s[|s| - |p|..];
      if s[0] != c && |rest| == 1 {
        assert rest == [s[1..]];
        assert [s[0]] + s[1..] == s;
      } else {
        assert Split(s, c)[|Split(s, c)| - 1] == p;
        if |p| < |s| - 1 {
          assert s[1..][|s| - 1 - |p| - 1] == s[|s| - |p| - 1];
        }
      }
    }
  }

  /** Rust's `char::is_whitespace`: the Unicode White_Space property. */
  predicate IsWhitespace(c: char)
  {
    || c == ' ' || ('\t' <= c <= '\r') || c == '\U{85}' || c == '\U{A0}' || c == '\U{1680}'
    || ('\U{2000}' <= c <= '\U{200A}') || c == '\U{2028}' || c == '\U{2029}' || c == '\U{202F}'
    || c == '\U{205F}' || c == '\U{3000}'
  }

  /** `s.trim()`: `s` without its leading and trailing whitespace. */
  function Trim(s: string): (r: string)
    ensures |r| <= |s|
    ensures r == [] || (!IsWhitespace(r[0]) && !IsWhitespace(r[|r| - 1]))
    decreases |s|
  {
    if s != [] && IsWhitespace(s[0]) then Trim(s[1..])
    else if s != [] && IsWhitespace(s[|s| - 1]) then Trim(s[..|s| - 1])
    else s
  }

  /** A string that neither starts nor ends with whitespace is left as is;
      trimming twice is trimming once. */
  lemma TrimUnchanged(s: string)
    ensures s != [] && !IsWhitespace(s[0]) && !IsWhitespace(s[|s| - 1]) ==> Trim(s) == s
    ensures Trim(Trim(s)) == Trim(s)
  {
  }

  /** Trimming leaves nothing exactly when every character is whitespace. */
  lemma {:induction false} TrimEmpty(s: string)
    ensures Trim(s) == [] <==> forall k :: 0 <= k < |s| ==> IsWhitespace(s[k])
    decreases |s|
  {
    if s != [] && IsWhitespace(s[0]) {
      TrimEmpty(s[1..]);
      assert forall k :: 1 <= k < |s| ==> s[k] == s[1..][k - 1];
    } else if s != [] && IsWhitespace(s[|s| - 1]) {
      TrimEmpty(s[..|s| - 1]);
      assert forall k :: 0 <= k < |s| - 1 ==> s[k] == s[..|s| - 1][k];
    }
  }

  /** Trimming only drops characters: every character left was in `s`. */
  lemma {:induction false} TrimChars(s: string)
    ensures forall c :: c in Trim(s) ==> c in s
    decreases |s|
  {
    if s != [] && IsWhitespace(s[0]) {
      TrimChars(s[1..]);
      assert forall c :: c in s[1..] ==> c in s;
    } else if s != [] && IsWhitespace(s[|s| - 1]) {
      TrimChars(s[..|s| - 1]);
      assert forall c :: c in s[..|s| - 1] ==> c in s;
    }
  }

  /** Whether `pat` occurs in `s` starting at position `i`. */
  predicate OccursAt(s: string, pat: string, i: nat)
  {
    i + |pat| <= |s| && s[i..i + |pat|] == pat
  }

  /** `s.replace(pat, rep)`: every occurrence of `pat`, scanning left to right
      without overlap, replaced by `rep`. */
  function ReplaceAll(s: string, pat: string, rep: string): (r: string)
    requires |pat| > 0
    ensures (forall i: nat :: !OccursAt(s, pat, i)) ==> r == s
    decreases |s|
  {
    if |s| < |pat| then s
    else if s[..|pat|] == pat then
      assert OccursAt(s, pat, 0);
      rep + ReplaceAll(s[|pat|..], pat, rep)
    else
      assert forall i: nat :: OccursAt(s[1..], pat, i) ==> OccursAt(s, pat, i + 1) by {
        forall i: nat | OccursAt(s[1..], pat, i) ensures OccursAt(s, pat, i + 1) {
          assert s[i + 1..i + 1 + |pat|] == s[1..][i..i + |pat|];
        }
      }
      [s[0]] + ReplaceAll(s[1..], pat, rep)
  }

  /** A string that is exactly the pattern is replaced by `rep`. */
  lemma ReplaceAllWhole(pat: string, rep: string)
    requires |pat| > 0
    ensures ReplaceAll(pat, pat, rep) == rep
  {
    assert pat[|pat|..] == [];
  }

  /** ASCII upper-casing of one character. */
  function UpperChar(c: char): (u: char)
    ensures 'a' <= c <= 'z' ==> 'A' <= u <= 'Z' && u as int - c as int == 'A' as int - 'a' as int
    ensures !('a' <= c <= 'z') ==> u == c
  {
    if 'a' <= c <= 'z' then (c as int - 'a' as int + 'A' as int) as char else c
  }

  /** `s.to_uppercase()` restricted to ASCII letters. */
  function ToUpper(s: string): (r: string)
    ensures |r| == |s|
    ensures forall k :: 0 <= k < |s| ==> r[k] == UpperChar(s[k])
  {
    seq(|s|, k requires 0 <= k < |s| => UpperChar(s[k]))
  }
}
