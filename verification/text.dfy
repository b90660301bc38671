/**
  The string primitives the decoder and loader rely on, restated on `seq<char>`:
  Go's `unicode.IsSpace`, `strings.Index`, `strings.Split`, `strings.TrimSpace`,
  the regular-expression rewrite of `" +"` to `" "`, and the POSIX class
  `[[:alnum:]]`.
*/
module Text {

  /** Go's `unicode.IsSpace`: the Latin-1 white space characters and the other
      characters with the Unicode White_Space property. */
  predicate IsSpace(c: char) {
    var n := c as int;
    || n == 0x20 || (0x09 <= n <= 0x0D) || n == 0x85 || n == 0xA0 || n == 0x1680
    || (0x2000 <= n <= 0x200A) || n == 0x2028 || n == 0x2029 || n == 0x202F
    || n == 0x205F || n == 0x3000
  }

  /** The class `[[:alnum:]]` of Go's regular expressions, which is ASCII only. */
  predicate IsAlnum(c: char) {
    ('0' <= c <= '9') || ('A' <= c <= 'Z') || ('a' <= c <= 'z')
  }

  /** True iff the regular expression `[[:alnum:]]` matches somewhere in `s`. */
  predicate HasAlnum(s: string): (b: bool)
    ensures b ==> |s| > 0
    ensures (forall k :: 0 <= k < |s| ==> IsSpace(s[k])) ==> !b
  {
    exists i :: 0 <= i < |s| && IsAlnum(s[i])
  }

  /** The match may lie anywhere: a concatenation matches iff one of its
      parts does. */
  lemma HasAlnumAppend(a: string, b: string)
    ensures HasAlnum(a + b) <==> HasAlnum(a) || HasAlnum(b)
  {
    if HasAlnum(a + b) {
      var i :| 0 <= i < |a + b| && IsAlnum((a + b)[i]);
      if i >= |a| {
        assert b[i - |a|] == (a + b)[i];
      }
    }
    if HasAlnum(a) {
      var j :| 0 <= j < |a| && IsAlnum(a[j]);
      assert (a + b)[j] == a[j];
    }
    if HasAlnum(b) {
      var j :| 0 <= j < |b| && IsAlnum(b[j]);
      assert (a + b)[|a| + j] == b[j];
    }
  }

  /** `strings.Index` for a one-character separator: the position of the first
      `c` in `s`, or -1 when `s` has none. */
  function IndexOf(s: string, c: char): (k: int)
    ensures -1 <= k < |s|
    ensures k == -1 <==> c !in s
    ensures 0 <= k ==> s[k] == c && c !in s[..k]
  {
    if |s| == 0 then -1
    else if s[0] == c then 0
    else
      var k := IndexOf(s[1..], c);
      if k < 0 then -1
      else
        assert s[..k + 1] == [s[0]] + s[1..][..k];
        k + 1
  }

  /** The first `c` of `a + [c] + b` is the one after `a` when `a` has none. */
  lemma IndexOfAfter(a: string, c: char, b: string)
    requires c !in a
    ensures IndexOf(a + [c] + b, c) == |a|
  {
    var s := a + [c] + b;
    assert s[|a|] == c;
  }

  /** `strings.Split(s, string(c))`: the pieces of `s` between occurrences of
      `c`. There is always at least one piece, and a string without `c` is its
      own single piece. */
  function Split(s: string, c: char): (parts: seq<string>)
    ensures |parts| >= 1
    ensures c !in s ==> parts == [s]
    decreases |s|
  {
    var k := IndexOf(s, c);
    if k < 0 then [s] else [s[..k]] + Split(s[k + 1..], c)
  }

  /** `strings.Join(parts, string(c))`. */
  function Join(parts: seq<string>, c: char): string
  {
    if |parts| == 0 then ""
    else if |parts| == 1 then parts[0]
    else parts[0] + [c] + Join(parts[1..], c)
  }

  /** Piece `i` of a split holds no separator. */
  lemma {:induction false} SplitPartFree(s: string, c: char, i: nat)
    requires i < |Split(s, c)|
    ensures c !in Split(s, c)[i]
    decreases |s|
  {
    var k := IndexOf(s, c);
    if k >= 0 && i > 0 {
      var rest := Split(s[k + 1..], c);
      assert Split(s, c)[i] == rest[i - 1];
      SplitPartFree(s[k + 1..], c, i - 1);
    }
  }

  /** Joining the pieces of a split with the separator gives back the string. */
  lemma {:induction false} JoinSplit(s: string, c: char)
    ensures Join(Split(s, c), c) == s
    decreases |s|
  {
    var k := IndexOf(s, c);
    if k >= 0 {
      var head, tail := s[..k], s[k + 1..];
      var rest := Split(tail, c);
      assert Split(s, c) == [head] + rest;
      assert Join([head] + rest, c) == head + [c] + Join(rest, c) by {
        JoinCons(head, rest, c);
      }
      assert Join(rest, c) == tail by {
        JoinSplit(tail, c);
      }
      assert head + [c] + tail == s by {
        SliceAround(s, k);
      }
    }
  }

  /** Joining a piece in front of a non-empty list of pieces. */
  lemma JoinCons(p: string, rest: seq<string>, c: char)
    requires |rest| >= 1
    ensures Join([p] + rest, c) == p + [c] + Join(rest, c)
  {
    assert ([p] + rest)[1..] == rest;
  }

  /** A string is what lies before, at and after any of its positions. */
  lemma SliceAround(s: string, k: int)
    requires 0 <= k < |s|
    ensures s == s[..k] + [s[k]] + s[k + 1..]
  {
  }

  /** Splitting a join of separator-free pieces gives back the pieces. */
  lemma {:induction false} SplitJoin(parts: seq<string>, c: char)
    requires |parts| >= 1
    requires forall i :: 0 <= i < |parts| ==> c !in parts[i]
    ensures Split(Join(parts, c), c) == parts
  {
    if |parts| > 1 {
      var tail := Join(parts[1..], c);
      IndexOfAfter(parts[0], c, tail);
      var s := parts[0] + [c] + tail;
      assert s[..|parts[0]|] == parts[0];
      assert s[|parts[0]| + 1..] == tail;
      SplitJoin(parts[1..], c);
    }
  }

  /** No two adjacent spaces. */
  predicate NoDoubleSpace(s: string) {
    forall i :: 0 <= i < |s| - 1 ==> !(s[i] == ' ' && s[i + 1] == ' ')
  }

  /** `s` with its space characters (U+0020 only) removed. */
  function NonSpaces(s: string): string {
    if |s| == 0 then ""
    else if s[0] == ' ' then NonSpaces(s[1..])
    else [s[0]] + NonSpaces(s[1..])
  }

  /** The rewrite of every run of space characters (U+0020, not tabs) to a single
      space, as `regexp.MustCompile(" +").ReplaceAllString(s, " ")`. The lemmas
      below state what it keeps and what it removes. */
  function CollapseSpaces(s: string): (r: string)
    ensures |r| <= |s|
    ensures |s| > 0 ==> |r| > 0 && r[0] == s[0]
    decreases |s|
  {
    if |s| <= 1 then s
    else if s[0] == ' ' && s[1] == ' ' then CollapseSpaces(s[1..])
    else [s[0]] + CollapseSpaces(s[1..])
  }

  /** The rewrite never leaves two spaces side by side. */
  lemma {:induction false} CollapseNoDoubleSpaceResult(s: string)
    ensures NoDoubleSpace(CollapseSpaces(s))
    decreases |s|
  {
    if |s| > 1 {
      var rest := CollapseSpaces(s[1..]);
      CollapseNoDoubleSpaceResult(s[1..]);
      if !(s[0] == ' ' && s[1] == ' ') {
        var r := [s[0]] + rest;
        forall i | 0 <= i < |r| - 1
          ensures !(r[i] == ' ' && r[i + 1] == ' ')
        {
          if i > 0 {
            assert r[i] == rest[i - 1] && r[i + 1] == rest[i];
          }
        }
      }
    }
  }

  /** The rewrite keeps every character other than a space, in order. */
  lemma {:induction false} CollapseKeepsNonSpaces(s: string)
    ensures NonSpaces(CollapseSpaces(s)) == NonSpaces(s)
    decreases |s|
  {
    if |s| > 1 {
      CollapseKeepsNonSpaces(s[1..]);
      if !(s[0] == ' ' && s[1] == ' ') {
        var r := [s[0]] + CollapseSpaces(s[1..]);
        assert r[1..] == CollapseSpaces(s[1..]);
      }
    }
  }

  /** The rewritten string contains a space iff the original does. */
  lemma {:induction false} CollapseKeepsSpace(s: string)
    ensures ' ' in CollapseSpaces(s) <==> ' ' in s
    decreases |s|
  {
    if |s| > 1 {
      CollapseKeepsSpace(s[1..]);
      assert s == [s[0]] + s[1..];
      if s[0] == ' ' && s[1] == ' ' {
        assert s[1..][0] == ' ';
      } else {
        var rest := CollapseSpaces(s[1..]);
        assert ' ' in [s[0]] + rest <==> s[0] == ' ' || ' ' in rest;
      }
    }
  }

  /** A string with no double space is left as it is. */
  lemma {:induction false} CollapseNoDoubleSpace(s: string)
    requires NoDoubleSpace(s)
    ensures CollapseSpaces(s) == s
    decreases |s|
  {
    if |s| > 1 {
      assert NoDoubleSpace(s[1..]) by {
        forall i | 0 <= i < |s[1..]| - 1
          ensures !(s[1..][i] == ' ' && s[1..][i + 1] == ' ')
        {
          assert s[1..][i] == s[i + 1] && s[1..][i + 1] == s[i + 2];
        }
      }
      CollapseNoDoubleSpace(s[1..]);
    }
  }

  /** Collapsing twice is collapsing once. */
  lemma CollapseIdempotent(s: string)
    ensures CollapseSpaces(CollapseSpaces(s)) == CollapseSpaces(s)
  {
    CollapseNoDoubleSpaceResult(s);
    CollapseNoDoubleSpace(CollapseSpaces(s));
  }

  /** A space-free prefix passes through the rewrite unchanged. */
  lemma {:induction false} CollapseSpaceFreePrefix(a: string, b: string)
    requires ' ' !in a
    ensures CollapseSpaces(a + b) == a + CollapseSpaces(b)
    decreases |a|
  {
    if |a| == 0 {
      assert a + b == b;
    } else if |a + b| == 1 {
      assert b == [] && a + b == a;
    } else {
      var s := a + b;
      var t := a[1..] + b;
      assert s[1..] == t;
      calc {
        CollapseSpaces(s);
        { CollapseNonSpaceHead(s); }
        [a[0]] + CollapseSpaces(t);
        { CollapseSpaceFreePrefix(a[1..], b); }
        [a[0]] + (a[1..] + CollapseSpaces(b));
        { assert a == [a[0]] + a[1..]; }
        a + CollapseSpaces(b);
      }
    }
  }

  /** A leading non-space character is copied and the rest is rewritten. */
  lemma CollapseNonSpaceHead(s: string)
    requires |s| >= 2 && s[0] != ' '
    ensures CollapseSpaces(s) == [s[0]] + CollapseSpaces(s[1..])
  {
  }

  /** `k` space characters. */
  function Spaces(k: nat): (r: string)
    ensures |r| == k
    ensures forall i :: 0 <= i < k ==> r[i] == ' '
  {
    seq(k, _ => ' ')
  }

  /** A run of `k >= 1` spaces before a space-free string collapses to one space. */
  lemma {:induction false} CollapseSpaceRun(k: nat, b: string)
    requires k >= 1
    requires ' ' !in b
    ensures CollapseSpaces(Spaces(k) + b) == " " + b
    decreases k
  {
    var s := Spaces(k) + b;
    if k == 1 {
      if |b| > 0 {
        assert s[1..] == b;
        CollapseNoDoubleSpace(b);
      }
    } else {
      assert s[1..] == Spaces(k - 1) + b;
      CollapseSpaceRun(k - 1, b);
    }
  }

  /** The first position at or after `i` that holds no white space, or `|s|`. */
  function FirstNonSpace(s: string, i: nat): (k: nat)
    requires i <= |s|
    ensures i <= k <= |s|
    ensures forall j :: i <= j < k ==> IsSpace(s[j])
    ensures k < |s| ==> !IsSpace(s[k])
    decreases |s| - i
  {
    if i < |s| && IsSpace(s[i]) then FirstNonSpace(s, i + 1) else i
  }

  /** The end of `s[i..j]` without its trailing white space. */
  function TrimmedEnd(s: string, i: nat, j: nat): (k: nat)
    requires i <= j <= |s|
    ensures i <= k <= j
    ensures forall m :: k <= m < j ==> IsSpace(s[m])
    ensures k > i ==> !IsSpace(s[k - 1])
    decreases j
  {
    if j > i && IsSpace(s[j - 1]) then TrimmedEnd(s, i, j - 1) else j
  }

  /** `strings.TrimSpace`: `s` without its leading and trailing white space. */
  function TrimSpace(s: string): (r: string)
    ensures |r| <= |s|
    ensures |r| > 0 ==> !IsSpace(r[0]) && !IsSpace(r[|r| - 1])
  {
    var i := FirstNonSpace(s, 0);
    var j := TrimmedEnd(s, i, |s|);
    s[i..j]
  }

  /** The trim is a slice `s[i..j]` of `s` with only white space outside it. */
  lemma TrimSpaceIsSlice(s: string)
    ensures exists i, j ::
              && 0 <= i <= j <= |s| && TrimSpace(s) == s[i..j]
              && (forall k :: 0 <= k < i ==> IsSpace(s[k]))
              && (forall k :: j <= k < |s| ==> IsSpace(s[k]))
  {
    var i := FirstNonSpace(s, 0);
    var j := TrimmedEnd(s, i, |s|);
    assert TrimSpace(s) == s[i..j];
  }

  /** A string that neither starts nor ends with white space is its own trim. */
  lemma TrimSpaceUnchanged(s: string)
    requires |s| > 0 ==> !IsSpace(s[0]) && !IsSpace(s[|s| - 1])
    ensures TrimSpace(s) == s
  {
  }

  /** Every character of a trimmed string comes from the original. */
  lemma TrimSpaceSubstring(s: string, c: char)
    requires c in TrimSpace(s)
    ensures c in s
  {
    var i := FirstNonSpace(s, 0);
    var j := TrimmedEnd(s, i, |s|);
    var r := s[i..j];
    assert TrimSpace(s) == r;
    var k :| 0 <= k < |r| && r[k] == c;
    assert s[i + k] == c;
  }
}
