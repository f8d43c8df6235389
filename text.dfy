/**
 * The string operations the symptom checker takes from JavaScript:
 * `toLowerCase`, `includes` and `split(/\s+/)`.
 */
module Text {

  /** A character matched by `\s` in a JavaScript regular expression. */
  predicate IsSpace(c: char) {
    || ('\t' <= c <= '\r')
    || c == ' '
    || c == '\U{A0}'
    || c == '\U{1680}'
    || ('\U{2000}' <= c <= '\U{200A}')
    || c == '\U{2028}'
    || c == '\U{2029}'
    || c == '\U{202F}'
    || c == '\U{205F}'
    || c == '\U{3000}'
    || c == '\U{FEFF}'
  }

  /** `toLowerCase` on one character, restricted to ASCII letters. */
  function LowerChar(c: char): (r: char)
    ensures !('A' <= r <= 'Z')
    ensures 'A' <= c <= 'Z' ==> r as int == c as int + 32
    ensures !('A' <= c <= 'Z') ==> r == c
    ensures IsSpace(r) == IsSpace(c)
  {
    if 'A' <= c <= 'Z' then (c as int + 32) as char else c
  }

  /** `toLowerCase` on a string: the same length, each character lowered. */
  function Lower(s: string): (r: string)
    ensures |r| == |s|
    ensures forall i :: 0 <= i < |s| ==> r[i] == LowerChar(s[i])
  {
    if s == [] then [] else [LowerChar(s[0])] + Lower(s[1..])
  }

  /** `hay.includes(needle)`: `needle` occurs somewhere in `hay`. */
  predicate Contains(hay: string, needle: string)
    decreases |hay|
  {
    needle <= hay || (hay != [] && Contains(hay[1..], needle))
  }

  /** `needle` occurs in `hay` starting at index `i`. */
  ghost predicate OccursAt(hay: string, needle: string, i: int) {
    0 <= i && i + |needle| <= |hay| && hay[i..i + |needle|] == needle
  }

  /** `Contains` agrees with the positional definition of a substring. */
  lemma {:induction false} ContainsIffOccurs(hay: string, needle: string)
    ensures Contains(hay, needle) <==> exists i :: OccursAt(hay, needle, i)
    decreases |hay|
  {
    if needle <= hay {
      assert OccursAt(hay, needle, 0);
    } else if hay == [] {
    } else {
      ContainsIffOccurs(hay[1..], needle);
      if Contains(hay[1..], needle) {
        var i :| OccursAt(hay[1..], needle, i);
        assert hay[i + 1..i + 1 + |needle|] == hay[1..][i..i + |needle|];
        assert OccursAt(hay, needle, i + 1);
      }
      if i :| OccursAt(hay, needle, i) && i > 0 {
        assert hay[1..][i - 1..i - 1 + |needle|] == hay[i..i + |needle|];
        assert OccursAt(hay[1..], needle, i - 1);
      }
    }
  }

  /** A string embedded between two others is found by `includes`. */
  lemma ContainsMiddle(p: string, needle: string, q: string)
    ensures Contains(p + needle + q, needle)
  {
    var s := p + needle + q;
    assert s[|p|..|p| + |needle|] == needle;
    assert OccursAt(s, needle, |p|);
    ContainsIffOccurs(s, needle);
  }

  /** A string free of whitespace. */
  predicate Solid(w: string) {
    forall i :: 0 <= i < |w| ==> !IsSpace(w[i])
  }

  /** A string of whitespace only. */
  predicate Spaces(g: string) {
    forall i :: 0 <= i < |g| ==> IsSpace(g[i])
  }

  /** The longest prefix of `s` free of whitespace. */
  function TakeWord(s: string): (w: string)
    ensures w <= s
    ensures Solid(w)
    ensures |w| < |s| ==> IsSpace(s[|w|])
  {
    if s == [] || IsSpace(s[0]) then [] else [s[0]] + TakeWord(s[1..])
  }

  /** `s` without its leading run of whitespace. */
  function DropSpaces(s: string): (r: string)
    ensures |r| <= |s|
    ensures Spaces(s[..|s| - |r|])
    ensures r != [] ==> !IsSpace(r[0])
    ensures s != [] && IsSpace(s[0]) ==> |r| < |s|
  {
    if s != [] && IsSpace(s[0]) then DropSpaces(s[1..]) else s
  }

  /** What `DropSpaces` leaves is a suffix of `s`. */
  lemma {:induction false} DropSpacesSuffix(s: string)
    ensures DropSpaces(s) == s[|s| - |DropSpaces(s)|..]
    decreases |s|
  {
    if s != [] && IsSpace(s[0]) {
      DropSpacesSuffix(s[1..]);
    }
  }

  /**
   * `s.split(/\s+/)`: the pieces of `s` between maximal runs of whitespace.
   * A leading or trailing run produces an empty piece, and the empty string
   * splits into one empty piece.
   */
  function Split(s: string): (words: seq<string>)
    ensures |words| >= 1
    decreases |s|
  {
    var w := TakeWord(s);
    if |w| == |s| then [w]
    else
      [w] + Split(DropSpaces(s[|w|..]))
  }

  /** No piece of the split contains whitespace. */
  lemma {:induction false} SplitSolid(s: string)
    ensures forall k :: 0 <= k < |Split(s)| ==> Solid(Split(s)[k])
    decreases |s|
  {
    var w := TakeWord(s);
    if |w| < |s| {
      var rest := DropSpaces(s[|w|..]);
      SplitSolid(rest);
      var words := Split(s);
      assert words == [w] + Split(rest);
      forall k | 0 <= k < |words|
        ensures Solid(words[k])
      {
        if k > 0 {
          assert words[k] == Split(rest)[k - 1];
        }
      }
    }
  }

  /** A non-empty run of whitespace. */
  predicate Blank(g: string) {
    g != [] && Spaces(g)
  }

  /** The whitespace runs `Split` drops between consecutive pieces of `s`. */
  function Gaps(s: string): seq<string>
    decreases |s|
  {
    var w := TakeWord(s);
    if |w| == |s| then []
    else
      var tail := s[|w|..];
      var rest := DropSpaces(tail);
      assert IsSpace(tail[0]);
      [tail[..|tail| - |rest|]] + Gaps(rest)
  }

  /** Every run `Split` drops is non-empty and all whitespace. */
  lemma {:induction false} GapsBlank(s: string)
    ensures forall k :: 0 <= k < |Gaps(s)| ==> Blank(Gaps(s)[k])
    decreases |s|
  {
    var w := TakeWord(s);
    if |w| < |s| {
      var tail := s[|w|..];
      var rest := DropSpaces(tail);
      var gap := tail[..|tail| - |rest|];
      assert IsSpace(tail[0]);
      assert Blank(gap);
      GapsBlank(rest);
      var gaps := Gaps(s);
      assert gaps == [gap] + Gaps(rest);
      forall k | 0 <= k < |gaps|
        ensures Blank(gaps[k])
      {
        if k > 0 {
          assert gaps[k] == Gaps(rest)[k - 1];
        }
      }
    }
  }

  /** The pieces joined back together, `gaps[k]` between `words[k]` and `words[k + 1]`. */
  function Join(words: seq<string>, gaps: seq<string>): string
    requires |words| == |gaps| + 1
  {
    if gaps == [] then words[0] else words[0] + gaps[0] + Join(words[1..], gaps[1..])
  }

  /**
   * `Split` loses nothing but whitespace: there is one run fewer than pieces,
   * and joining the pieces with the runs it dropped gives `s` back. With the
   * pieces free of whitespace and every run non-empty, this fixes the pieces
   * as the maximal whitespace-free runs of `s`.
   */
  lemma {:induction false} SplitJoin(s: string)
    ensures |Split(s)| == |Gaps(s)| + 1
    ensures s == Join(Split(s), Gaps(s))
    decreases |s|
  {
    var w := TakeWord(s);
    if |w| == |s| {
      assert w == s;
    } else {
      var rest := DropSpaces(s[|w|..]);
      var gap := s[|w|..][..|s[|w|..]| - |rest|];
      SplitJoin(rest);
      DropSpacesSuffix(s[|w|..]);
      SplitUnfold(s, w, rest);
      GapsUnfold(s, w, rest, gap);
      Reassemble(s, w, rest);
      JoinCons(w, gap, Split(rest), Gaps(rest));
      calc {
        Join(Split(s), Gaps(s));
        Join([w] + Split(rest), [gap] + Gaps(rest));
        w + gap + Join(Split(rest), Gaps(rest));
        w + gap + rest;
        s;
      }
    }
  }

  /** `Split` past its first piece, when there is more than one. */
  lemma SplitUnfold(s: string, w: string, rest: string)
    requires w == TakeWord(s) && |w| < |s| && rest == DropSpaces(s[|w|..])
    ensures Split(s) == [w] + Split(rest)
  {
  }

  /** `Gaps` past its first run, when there is more than one piece. */
  lemma GapsUnfold(s: string, w: string, rest: string, gap: string)
    requires w == TakeWord(s) && |w| < |s| && rest == DropSpaces(s[|w|..])
    requires gap == s[|w|..][..|s[|w|..]| - |rest|]
    ensures Gaps(s) == [gap] + Gaps(rest)
  {
  }

  /** Joining one more piece and run in front. */
  lemma JoinCons(w: string, gap: string, words: seq<string>, gaps: seq<string>)
    requires |words| == |gaps| + 1
    ensures Join([w] + words, [gap] + gaps) == w + gap + Join(words, gaps)
  {
    assert ([w] + words)[1..] == words && ([gap] + gaps)[1..] == gaps;
  }

  /**
   * Only the first and the last piece of the split can be empty: a run of
   * whitespace is dropped whole, so every inner piece holds some text.
   */
  lemma {:induction false} SplitInnerNonEmpty(s: string)
    ensures forall k :: 0 < k < |Split(s)| - 1 ==> Split(s)[k] != []
    decreases |s|
  {
    var w := TakeWord(s);
    if |w| < |s| {
      var rest := DropSpaces(s[|w|..]);
      SplitUnfold(s, w, rest);
      SplitInnerNonEmpty(rest);
      var words := Split(s);
      forall k | 0 < k < |words| - 1
        ensures words[k] != []
      {
        assert words[k] == Split(rest)[k - 1];
        if k == 1 {
          assert rest != [];
          assert !IsSpace(rest[0]);
          assert Split(rest)[0] == TakeWord(rest);
        }
      }
    }
  }

  /** A string is its prefix `w`, the middle, and a suffix `rest` of what follows `w`. */
  lemma Reassemble(s: string, w: string, rest: string)
    requires w <= s && |w| + |rest| <= |s| && rest == s[|s| - |rest|..]
    ensures s == w + s[|w|..][..|s[|w|..]| - |rest|] + rest
  {
    var tail := s[|w|..];
    assert tail == tail[..|tail| - |rest|] + rest;
    assert s == s[..|w|] + tail;
  }

  /** A string without whitespace splits into itself. */
  lemma SplitWithoutSpaces(s: string)
    requires forall i :: 0 <= i < |s| ==> !IsSpace(s[i])
    ensures Split(s) == [s]
  {
    var w := TakeWord(s);
    assert |w| == |s|;
    assert w == s;
  }

  /**
   * Splitting yields an empty word exactly when the string is empty or
   * starts or ends with whitespace.
   */
  lemma {:induction false} SplitHasEmptyWord(s: string)
    ensures "" in Split(s) <==> s == [] || IsSpace(s[0]) || IsSpace(s[|s| - 1])
    decreases |s|
  {
    var w := TakeWord(s);
    if |w| == |s| {
      assert Split(s) == [w];
      if s != [] {
        assert !IsSpace(s[0]) && !IsSpace(s[|s| - 1]) by {
          assert s == w;
        }
      }
    } else {
      var tail := s[|w|..];
      var rest := DropSpaces(tail);
      assert Split(s) == [w] + Split(rest);
      SplitHasEmptyWord(rest);
      assert w == [] <==> s == [] || IsSpace(s[0]);
      if rest == [] {
        assert IsSpace(tail[|tail| - 1]);
        assert tail[|tail| - 1] == s[|s| - 1];
      } else {
        DropSpacesSuffix(tail);
        assert rest[|rest| - 1] == s[|s| - 1];
        assert !IsSpace(rest[0]);
      }
    }
  }
}
