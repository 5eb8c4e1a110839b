/**
 * The Python string operations the handlers use, restricted to ASCII:
 * substring test (`in`), `replace`, `split` on one character, `strip()`,
 * `lower()`, `startswith` and `endswith`.
 */
module Text {

  /** `pat` occurs in `s` starting at index `i`. */
  predicate OccursAt(s: string, pat: string, i: int)
  {
    0 <= i && i + |pat| <= |s| && s[i..i + |pat|] == pat
  }

  /** Python's `pat in s`. */
  predicate Contains(s: string, pat: string)
  {
    exists i | 0 <= i <= |s| :: OccursAt(s, pat, i)
  }

  predicate StartsWith(s: string, prefix: string)
  {
    |prefix| <= |s| && s[..|prefix|] == prefix
  }

  predicate EndsWith(s: string, suffix: string)
  {
    |suffix| <= |s| && s[|s| - |suffix|..] == suffix
  }

  /**
   * Python's `s.replace(pat, rep)` for a non-empty `pat`: occurrences are
   * found left to right and do not overlap; the text put in is not rescanned.
   */
  function ReplaceAll(s: string, pat: string, rep: string): string
    requires |pat| > 0
    decreases |s|
  {
    if |s| < |pat| then s
    else if s[..|pat|] == pat then rep + ReplaceAll(s[|pat|..], pat, rep)
    else [s[0]] + ReplaceAll(s[1..], pat, rep)
  }

  /** Reference definition of deleting a character: keep every other one, in order. */
  function Without(s: string, c: char): (r: string)
    ensures c !in r
    ensures forall x :: x in r <==> x in s && x != c
    ensures |r| <= |s|
  {
    if s == [] then []
    else (if s[0] == c then [] else [s[0]]) + Without(s[1..], c)
  }

  /** A text with no occurrence of `pat` is left as it is by `replace`. */
  lemma {:induction false} ReplaceAbsent(s: string, pat: string, rep: string)
    requires |pat| > 0
    requires !Contains(s, pat)
    ensures ReplaceAll(s, pat, rep) == s
    decreases |s|
  {
    if |s| >= |pat| {
      assert !OccursAt(s, pat, 0);
      forall i | OccursAt(s[1..], pat, i) ensures false {
        assert s[1..][i..i + |pat|] == s[i + 1..i + 1 + |pat|];
        assert OccursAt(s, pat, i + 1);
      }
      ReplaceAbsent(s[1..], pat, rep);
    }
  }

  /** Replacing a pattern in the pattern itself gives the replacement. */
  lemma ReplaceWhole(pat: string, rep: string)
    requires |pat| > 0
    ensures ReplaceAll(pat, pat, rep) == rep
  {
    assert pat[..|pat|] == pat;
    assert pat[|pat|..] == [];
    assert ReplaceAll(pat[|pat|..], pat, rep) == [];
    assert rep + [] == rep;
  }

  /** A text that lacks the first character of `pat` has no occurrence of it. */
  lemma FirstCharAbsent(s: string, pat: string)
    requires |pat| > 0 && pat[0] !in s
    ensures !Contains(s, pat)
  {
  }

  /** Replacing a one-character pattern by nothing deletes that character. */
  lemma {:induction false} ReplaceCharIsWithout(s: string, c: char)
    ensures ReplaceAll(s, [c], "") == Without(s, c)
    decreases |s|
  {
    if s != [] {
      ReplaceCharIsWithout(s[1..], c);
      assert s[..1] == [s[0]];
    }
  }

  /**
   * `replace` works piece by piece on each side of a character that the
   * pattern does not contain: no occurrence can straddle it.
   */
  lemma {:induction false} ReplaceAround(a: string, c: char, b: string, pat: string, rep: string)
    requires |pat| > 0 && c !in pat
    ensures ReplaceAll(a + [c] + b, pat, rep)
         == ReplaceAll(a, pat, rep) + [c] + ReplaceAll(b, pat, rep)
    decreases |a|
  {
    var s := a + [c] + b;
    if |s| < |pat| {
    } else if s[..|pat|] == pat {
      if |a| < |pat| { StraddleMisses(a, c, b, pat); }
      assert a[..|pat|] == pat;
      assert s[|pat|..] == a[|pat|..] + [c] + b;
      ReplaceAround(a[|pat|..], c, b, pat, rep);
    } else if a == [] {
      assert s == [c] + b;
      assert s[1..] == b;
    } else {
      assert s[1..] == a[1..] + [c] + b;
      ReplaceAround(a[1..], c, b, pat, rep);
      if |a| >= |pat| {
        assert a[..|pat|] == s[..|pat|];
      }
    }
  }

  /** Past a separator, after a text without the pattern, only the right-hand side changes. */
  lemma ReplaceAfter(a: string, c: char, b: string, pat: string, rep: string)
    requires |pat| > 0 && c !in pat && !Contains(a, pat)
    ensures ReplaceAll(a + [c] + b, pat, rep) == a + [c] + ReplaceAll(b, pat, rep)
  {
    ReplaceAround(a, c, b, pat, rep);
    ReplaceAbsent(a, pat, rep);
  }

  /** `pat` has no border: no proper prefix of it is also a suffix of it. */
  predicate BorderFree(pat: string)
  {
    forall k :: 0 < k < |pat| ==> pat[..k] != pat[|pat| - k..]
  }

  /**
   * A border-free pattern standing at the very end of a text is always
   * found there by the left-to-right scan.
   */
  lemma {:induction false} ReplaceAtEnd(x: string, pat: string, rep: string)
    requires |pat| > 0 && BorderFree(pat)
    ensures ReplaceAll(x + pat, pat, rep) == ReplaceAll(x, pat, rep) + rep
    decreases |x|
  {
    var s := x + pat;
    if |x| == 0 {
      assert s == pat;
      assert s[..|pat|] == pat;
      assert s[|pat|..] == [];
    } else if s[..|pat|] == pat {
      if |x| < |pat| {
        BorderAt(x, pat);
      } else {
        assert x[..|pat|] == pat;
        assert s[|pat|..] == x[|pat|..] + pat;
        ReplaceAtEnd(x[|pat|..], pat, rep);
      }
    } else {
      assert s[0] == x[0];
      assert s[1..] == x[1..] + pat;
      ReplaceAtEnd(x[1..], pat, rep);
      if |x| >= |pat| {
        assert x[..|pat|] == s[..|pat|];
      } else {
        assert x == [x[0]] + x[1..];
      }
    }
  }

  /** Where `pat` starts inside a shorter text followed by `pat`, `pat` would have a border. */
  lemma BorderAt(x: string, pat: string)
    requires 0 < |x| < |pat| && BorderFree(pat)
    ensures (x + pat)[..|pat|] != pat
  {
    var k := |pat| - |x|;
    assert pat[..k] != pat[|pat| - k..];
  }

  /** A window that covers the character `c` cannot match a pattern without `c`. */
  lemma StraddleMisses(a: string, c: char, b: string, pat: string)
    requires c !in pat && |a| < |pat| <= |a| + 1 + |b|
    ensures (a + [c] + b)[..|pat|] != pat
  {
    assert (a + [c] + b)[..|pat|][|a|] == c;
  }

  /**
   * Python's `s.split(c)`: the pieces between the occurrences of `c`,
   * always at least one, empty pieces included.
   */
  function Split(s: string, c: char): (parts: seq<string>)
    ensures |parts| >= 1
    ensures forall i :: 0 <= i < |parts| ==> c !in parts[i]
    decreases |s|
  {
    if s == [] then [""]
    else if s[0] == c then [""] + Split(s[1..], c)
    else
      var rest := Split(s[1..], c);
      [[s[0]] + rest[0]] + rest[1..]
  }

  /** Python's `c.join(parts)`. */
  function Join(parts: seq<string>, c: char): string
  {
    if |parts| == 0 then ""
    else if |parts| == 1 then parts[0]
    else parts[0] + [c] + Join(parts[1..], c)
  }

  /** Joining the pieces of a split gives the text back. */
  lemma {:induction false} JoinSplit(s: string, c: char)
    ensures Join(Split(s, c), c) == s
    decreases |s|
  {
    if s != [] {
      JoinSplit(s[1..], c);
      var rest := Split(s[1..], c);
      if s[0] == c {
        assert s == [c] + s[1..];
      } else {
        JoinFront([s[0]], rest, c);
        assert s == [s[0]] + s[1..];
      }
    }
  }

  /** Joining after glueing `x` to the first piece is `x` in front of the join. */
  lemma JoinFront(x: string, parts: seq<string>, c: char)
    requires |parts| >= 1
    ensures Join([x + parts[0]] + parts[1..], c) == x + Join(parts, c)
  {
    var glued := [x + parts[0]] + parts[1..];
    assert glued[0] == x + parts[0] && glued[1..] == parts[1..];
    if |parts| > 1 {
      assert (x + parts[0]) + [c] + Join(parts[1..], c) == x + (parts[0] + [c] + Join(parts[1..], c));
    }
  }

  /** A text without the separator splits into itself alone. */
  lemma {:induction false} SplitWithout(a: string, c: char)
    requires c !in a
    ensures Split(a, c) == [a]
    decreases |a|
  {
    if a != [] {
      SplitWithout(a[1..], c);
      assert [a[0]] + a[1..] == a;
    }
  }

  /** Splitting past a first piece that holds no separator. */
  lemma {:induction false} SplitAfter(a: string, c: char, b: string)
    requires c !in a
    ensures Split(a + [c] + b, c) == [a] + Split(b, c)
    decreases |a|
  {
    var s := a + [c] + b;
    if a == [] {
      assert s[1..] == b;
    } else {
      assert s[1..] == a[1..] + [c] + b;
      SplitAfter(a[1..], c, b);
      assert [a[0]] + a[1..] == a;
    }
  }

  /** Splitting at a separator splits each side on its own. */
  lemma {:induction false} SplitConcat(a: string, c: char, b: string)
    ensures Split(a + [c] + b, c) == Split(a, c) + Split(b, c)
    decreases |a|
  {
    var s := a + [c] + b;
    if a == [] {
      assert s[1..] == b;
    } else {
      assert s[1..] == a[1..] + [c] + b;
      SplitConcat(a[1..], c, b);
    }
  }

  /** Python's `isspace()` on ASCII characters. */
  predicate IsSpace(ch: char)
  {
    ch == ' ' || ('\t' <= ch <= '\r') || ('\U{1C}' <= ch <= '\U{1F}')
  }

  predicate Blank(s: string)
  {
    forall k :: 0 <= k < |s| ==> IsSpace(s[k])
  }

  /** The number of whitespace characters at the start of `s`. */
  function LeadingSpaces(s: string): (n: nat)
    ensures n <= |s|
    decreases |s|
  {
    if |s| > 0 && IsSpace(s[0]) then 1 + LeadingSpaces(s[1..]) else 0
  }

  /** The leading run is blank, and the character after it is not whitespace. */
  lemma {:induction false} LeadingSpacesShape(s: string)
    ensures Blank(s[..LeadingSpaces(s)])
    ensures LeadingSpaces(s) < |s| ==> !IsSpace(s[LeadingSpaces(s)])
    decreases |s|
  {
    if |s| > 0 && IsSpace(s[0]) {
      LeadingSpacesShape(s[1..]);
      var n := LeadingSpaces(s[1..]);
      assert s[..n + 1] == [s[0]] + s[1..][..n];
    }
  }

  /** The number of whitespace characters at the end of `s`. */
  function TrailingSpaces(s: string): (n: nat)
    ensures n <= |s|
    decreases |s|
  {
    if |s| > 0 && IsSpace(s[|s| - 1]) then 1 + TrailingSpaces(s[..|s| - 1]) else 0
  }

  /** The trailing run is blank, and the character before it is not whitespace. */
  lemma {:induction false} TrailingSpacesShape(s: string)
    ensures Blank(s[|s| - TrailingSpaces(s)..])
    ensures TrailingSpaces(s) < |s| ==> !IsSpace(s[|s| - 1 - TrailingSpaces(s)])
    decreases |s|
  {
    if |s| > 0 && IsSpace(s[|s| - 1]) {
      var init := s[..|s| - 1];
      TrailingSpacesShape(init);
      var n := TrailingSpaces(init);
      assert s[|s| - (n + 1)..] == init[|init| - n..] + [s[|s| - 1]];
    }
  }

  /**
   * Python's `s.strip()`: the text between the leading and the trailing
   * run of whitespace; nothing when the whole text is whitespace.
   */
  function Strip(s: string): (r: string)
    ensures exists pre: string, post: string :: Blank(pre) && Blank(post) && s == pre + r + post
    ensures |r| > 0 ==> !IsSpace(r[0]) && !IsSpace(r[|r| - 1])
  {
    var i, j := LeadingSpaces(s), |s| - TrailingSpaces(s);
    LeadingSpacesShape(s);
    TrailingSpacesShape(s);
    if j <= i then
      BlankCut(s, i, j);
      []
    else
      MiddleCut(s, i, j);
      s[i..j]
  }

  /** A text whose trailing run reaches back over its leading run is all whitespace. */
  lemma BlankCut(s: string, i: nat, j: nat)
    requires j <= i <= |s| && Blank(s[..i]) && Blank(s[j..]) && (i < |s| ==> !IsSpace(s[i]))
    ensures exists pre: string, post: string :: Blank(pre) && Blank(post) && s == pre + [] + post
  {
    forall k | j <= k < |s| ensures IsSpace(s[k]) {
      assert s[j..][k - j] == s[k];
    }
    assert i == |s| && s[..i] == s;
    var pre, post: string := s, [];
    assert Blank(pre) && Blank(post) && s == pre + [] + post;
  }

  /** Between a blank prefix and a blank suffix, the middle starts and ends with non-whitespace. */
  lemma MiddleCut(s: string, i: nat, j: nat)
    requires i < j <= |s| && Blank(s[..i]) && Blank(s[j..]) && !IsSpace(s[i]) && !IsSpace(s[j - 1])
    ensures exists pre: string, post: string :: Blank(pre) && Blank(post) && s == pre + s[i..j] + post
    ensures !IsSpace(s[i..j][0]) && !IsSpace(s[i..j][j - i - 1])
  {
    var pre, post := s[..i], s[j..];
    assert s == pre + s[i..j] + post;
  }

  /** Stripping never brings in a character. */
  lemma StripKeeps(s: string, c: char)
    requires c !in s
    ensures c !in Strip(s)
  {
    var r := Strip(s);
    var pre, post :| Blank(pre) && Blank(post) && s == pre + r + post;
    assert forall i :: 0 <= i < |r| ==> r[i] == s[|pre| + i];
  }

  predicate IsUpper(ch: char)
  {
    'A' <= ch <= 'Z'
  }

  function LowerChar(ch: char): char
  {
    if IsUpper(ch) then (ch as int + 32) as char else ch
  }

  /** Python's `s.lower()` on ASCII letters; every other character is kept. */
  function Lower(s: string): (r: string)
    ensures |r| == |s|
    ensures forall i :: 0 <= i < |s| ==> !IsUpper(r[i])
    ensures forall i :: 0 <= i < |s| && !IsUpper(s[i]) ==> r[i] == s[i]
    ensures forall i :: 0 <= i < |s| && IsUpper(s[i]) ==> r[i] as int == s[i] as int + 32
  {
    seq(|s|, i requires 0 <= i < |s| => LowerChar(s[i]))
  }

  /** Lowering never introduces a character that is not an upper-case letter's image. */
  lemma LowerKeeps(s: string, c: char)
    requires !('a' <= c <= 'z') && c !in s
    ensures c !in Lower(s)
  {
  }
}
