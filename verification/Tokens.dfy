/** The token set of a normalized request text. */
module Tokens {
  import opened Text

  const PLACEHOLDERS: seq<string> := ["<path>", "<id>", "<n>", "<token>"]

  /** The first of `ps` that `s` starts with, or the empty string. */
  function PlaceholderAt(ps: seq<string>, s: string): (p: string)
  {
    if ps == [] then ""
    else if StartsWith(s, ps[0]) then ps[0]
    else PlaceholderAt(ps[1..], s)
  }

  ghost predicate Word(alnum: char -> bool, w: string)
  {
    forall i :: 0 <= i < |w| ==> alnum(w[i])
  }

  /** `s[i..j]` is a run of letters and digits that cannot be made longer. */
  ghost predicate MaximalRun(alnum: char -> bool, s: string, i: nat, j: nat)
  {
    i < j <= |s| && (forall x :: i <= x < j ==> alnum(s[x]))
    && (i > 0 ==> !alnum(s[i - 1]))
    && (j < |s| ==> !alnum(s[j]))
  }

  /** `s[i..j]` is the name inside a placeholder, brackets left out. */
  ghost predicate Bracketed(ps: seq<string>, s: string, i: nat, j: nat)
  {
    0 < i <= j < |s| && s[i - 1..j + 1] in ps
  }

  /** What a token is: a placeholder written somewhere in the text, or a maximal run of letters and
      digits that is not the name inside a placeholder. */
  ghost predicate IsToken(ps: seq<string>, alnum: char -> bool, s: string, t: string)
  {
    WrittenIn(ps, s, t) || RunOf(ps, alnum, s, t)
  }

  ghost predicate OccursAt(s: string, i: nat, t: string)
  {
    i + |t| <= |s| && s[i..i + |t|] == t
  }

  ghost predicate WrittenIn(ps: seq<string>, s: string, t: string)
  {
    t in ps && exists i :: OccursAt(s, i, t)
  }

  ghost predicate RunOf(ps: seq<string>, alnum: char -> bool, s: string, t: string)
  {
    exists i: nat, j: nat :: MaximalRun(alnum, s, i, j) && !Bracketed(ps, s, i, j) && t == s[i..j]
  }

  function Flush(word: string): set<string>
  {
    if word == "" then {} else {word}
  }

  /** The tokens still to come when `word` is the run read so far and `rest` is unread. */
  function Pending(ps: seq<string>, alnum: char -> bool, word: string, rest: string): set<string>
    decreases |rest|
  {
    if rest == "" then Flush(word)
    else
      var p := PlaceholderAt(ps, rest);
      PlaceholderFirst(ps, rest);
      if p != "" then Flush(word) + {p} + Pending(ps, alnum, "", rest[|p|..])
      else if alnum(rest[0]) then Pending(ps, alnum, word + [rest[0]], rest[1..])
      else Flush(word) + Pending(ps, alnum, "", rest[1..])
  }

  function TokenSet(ps: seq<string>, alnum: char -> bool, s: string): set<string>
  {
    Pending(ps, alnum, "", s)
  }

  method Scan(ps: seq<string>, alnum: char -> bool, normalized: string) returns (found: set<string>)
    ensures found == TokenSet(ps, alnum, normalized)
  {
    found := {};
    var word, rest := "", normalized;
    while rest != ""
      invariant found + Pending(ps, alnum, word, rest) == TokenSet(ps, alnum, normalized)
      decreases |rest|
    {
      var p := PlaceholderAt(ps, rest);
      PlaceholderFirst(ps, rest);
      if p != "" {
        found := found + Flush(word) + {p};
        word, rest := "", rest[|p|..];
      } else {
        if alnum(rest[0]) {
          word := word + [rest[0]];
        } else {
          found := found + Flush(word);
          word := "";
        }
        rest := rest[1..];
      }
    }
    found := found + Flush(word);
  }

  /** Each placeholder is a name of letters and digits between brackets, and brackets are neither. */
  ghost predicate Alphabet(ps: seq<string>, alnum: char -> bool)
  {
    !alnum('<') && !alnum('>')
    && forall p :: p in ps ==> |p| >= 3 && p[0] == '<' && p[|p| - 1] == '>' && Word(alnum, p[1..|p| - 1])
  }

  /** The four placeholders are such names as soon as their letters are letters. */
  lemma PlaceholdersFit(alnum: char -> bool)
    requires !alnum('<') && !alnum('>') && forall c :: c in "pathidnoke" ==> alnum(c)
    ensures Alphabet(PLACEHOLDERS, alnum)
  {
    forall p | p in PLACEHOLDERS ensures Word(alnum, p[1..|p| - 1]) {
      var name := p[1..|p| - 1];
      assert forall i :: 0 <= i < |name| ==> name[i] in "pathidnoke";
    }
  }

  lemma PlaceholderShape(ps: seq<string>, alnum: char -> bool, p: string)
    requires Alphabet(ps, alnum) && p in ps
    ensures |p| >= 3 && p[0] == '<' && p[|p| - 1] == '>'
    ensures forall i :: 0 < i < |p| - 1 ==> alnum(p[i])
  {
    assert forall i :: 0 < i < |p| - 1 ==> p[i] == p[1..|p| - 1][i - 1];
  }

  /** No placeholder starts another, so at most one starts a text. */
  lemma PlaceholderUnique(ps: seq<string>, alnum: char -> bool, s: string, p: string, q: string)
    requires Alphabet(ps, alnum) && p in ps && q in ps && StartsWith(s, p) && StartsWith(s, q)
    ensures p == q
  {
    PlaceholderShape(ps, alnum, p);
    PlaceholderShape(ps, alnum, q);
    assert forall i :: 0 <= i < |p| ==> p[i] == s[i];
    assert forall i :: 0 <= i < |q| ==> q[i] == s[i];
    assert |p| == |q|;
  }

  lemma {:induction false} PlaceholderFirst(ps: seq<string>, s: string)
    ensures var p := PlaceholderAt(ps, s); p != "" ==> p in ps && StartsWith(s, p)
    ensures "" !in ps && PlaceholderAt(ps, s) == "" ==> forall p :: p in ps ==> !StartsWith(s, p)
  {
    if ps != [] && !StartsWith(s, ps[0]) {
      PlaceholderFirst(ps[1..], s);
      assert ps == [ps[0]] + ps[1..];
    }
  }

  lemma PlaceholderFound(ps: seq<string>, alnum: char -> bool, s: string, p: string)
    requires Alphabet(ps, alnum) && p in ps && StartsWith(s, p)
    ensures PlaceholderAt(ps, s) == p
  {
    PlaceholderFirst(ps, s);
    PlaceholderShape(ps, alnum, p);
    PlaceholderUnique(ps, alnum, s, p, PlaceholderAt(ps, s));
  }

  /** `sep` ends the run before it: one character that is no letter or digit, or a placeholder. */
  ghost predicate Separates(ps: seq<string>, alnum: char -> bool, sep: string, r: string)
  {
    sep in ps || (|sep| == 1 && !alnum(sep[0]) && PlaceholderAt(ps, sep + r) == "")
  }

  /** The characters of a text cut into a run, what ends it, and the rest. */
  lemma Pieces(w: string, sep: string, r: string)
    ensures var s := w + sep + r;
      && (forall x :: 0 <= x < |w| ==> s[x] == w[x])
      && (forall x :: |w| <= x < |w| + |sep| ==> s[x] == sep[x - |w|])
      && (forall x :: |w| + |sep| <= x < |s| ==> s[x] == r[x - |w| - |sep|])
  {
  }

  lemma TokenBefore(ps: seq<string>, alnum: char -> bool, w: string, sep: string, r: string)
    requires Alphabet(ps, alnum) && Word(alnum, w) && Separates(ps, alnum, sep, r)
    ensures w != "" ==> RunOf(ps, alnum, w + sep + r, w)
    ensures sep in ps ==> WrittenIn(ps, w + sep + r, sep)
  {
    var s := w + sep + r;
    if sep in ps {
      PlaceholderShape(ps, alnum, sep);
      assert OccursAt(s, |w|, sep);
    }
    if w != "" {
      assert s[0..|w|] == w;
      assert MaximalRun(alnum, s, 0, |w|);
    }
  }

  lemma WrittenAfter(ps: seq<string>, s: string, k: nat, t: string)
    requires k <= |s| && WrittenIn(ps, s[k..], t)
    ensures WrittenIn(ps, s, t)
  {
    var i: nat :| OccursAt(s[k..], i, t);
    assert OccursAt(s, i + k, t);
  }

  lemma StaysUnbracketed(ps: seq<string>, alnum: char -> bool, w: string, sep: string, r: string, i: nat, j: nat)
    requires Alphabet(ps, alnum) && Separates(ps, alnum, sep, r) && i <= j <= |r| && !Bracketed(ps, r, i, j)
    ensures !Bracketed(ps, w + sep + r, i + |w| + |sep|, j + |w| + |sep|)
  {
    if Bracketed(ps, w + sep + r, i + |w| + |sep|, j + |w| + |sep|) {
      NotBracketed(ps, alnum, w, sep, r, i, j);
    }
  }

  lemma IsRun(ps: seq<string>, alnum: char -> bool, s: string, t: string, i: nat, j: nat)
    requires MaximalRun(alnum, s, i, j) && !Bracketed(ps, s, i, j) && t == s[i..j]
    ensures RunOf(ps, alnum, s, t)
  {
  }

  lemma RunAfter(ps: seq<string>, alnum: char -> bool, w: string, sep: string, r: string, t: string)
    requires Alphabet(ps, alnum) && Separates(ps, alnum, sep, r) && RunOf(ps, alnum, r, t)
    ensures RunOf(ps, alnum, w + sep + r, t)
  {
    var k := |w| + |sep|;
    var i: nat, j: nat :| MaximalRun(alnum, r, i, j) && !Bracketed(ps, r, i, j) && t == r[i..j];
    StaysUnbracketed(ps, alnum, w, sep, r, i, j);
    RunShifted(ps, alnum, w, sep, r, i, j);
    IsRun(ps, alnum, w + sep + r, t, i + k, j + k);
  }

  lemma RunShifted(ps: seq<string>, alnum: char -> bool, w: string, sep: string, r: string, i: nat, j: nat)
    requires Alphabet(ps, alnum) && Separates(ps, alnum, sep, r) && MaximalRun(alnum, r, i, j)
    ensures var k := |w| + |sep|; MaximalRun(alnum, w + sep + r, i + k, j + k)
    ensures var k := |w| + |sep|; (w + sep + r)[i + k..j + k] == r[i..j]
  {
    var s, k := w + sep + r, |w| + |sep|;
    if sep in ps {
      PlaceholderShape(ps, alnum, sep);
    }
    Pieces(w, sep, r);
    assert s[k - 1] == sep[|sep| - 1];
    assert i > 0 ==> s[i + k - 1] == r[i - 1];
    assert j < |r| ==> s[j + k] == r[j];
  }

  lemma SliceFromSeparator(w: string, sep: string, r: string, j: nat)
    requires |sep| > 0 && j < |r|
    ensures var s, k := w + sep + r, |w| + |sep|;
      && j + k + 1 <= |s| && s[k - 1..j + k + 1][0] == s[k - 1] == sep[|sep| - 1]
      && (|sep| == 1 ==> s[k - 1..j + k + 1] == (sep + r)[..j + 2])
  {
  }

  /** No placeholder begins at the end of a separator. */
  lemma NotOpenedBefore(ps: seq<string>, alnum: char -> bool, w: string, sep: string, r: string, j: nat)
    requires Alphabet(ps, alnum) && Separates(ps, alnum, sep, r) && j < |r| && |sep| > 0
    ensures (w + sep + r)[|w| + |sep| - 1..j + |w| + |sep| + 1] !in ps
  {
    var p := (w + sep + r)[|w| + |sep| - 1..j + |w| + |sep| + 1];
    SliceFromSeparator(w, sep, r, j);
    if p in ps {
      PlaceholderShape(ps, alnum, p);
      if sep in ps {
        PlaceholderShape(ps, alnum, sep);
      } else {
        PlaceholderFound(ps, alnum, sep + r, p);
      }
    }
  }

  lemma SliceAfterSeparator(w: string, sep: string, r: string, i: nat, j: nat)
    requires 0 < i <= j < |r|
    ensures (w + sep + r)[i + |w| + |sep| - 1..j + |w| + |sep| + 1] == r[i - 1..j + 1]
  {
  }

  lemma NotBracketed(ps: seq<string>, alnum: char -> bool, w: string, sep: string, r: string, i: nat, j: nat)
    requires Alphabet(ps, alnum) && Separates(ps, alnum, sep, r)
    requires i <= j <= |r| && Bracketed(ps, w + sep + r, i + |w| + |sep|, j + |w| + |sep|)
    ensures Bracketed(ps, r, i, j)
  {
    if sep in ps {
      PlaceholderShape(ps, alnum, sep);
    }
    if i > 0 {
      SliceAfterSeparator(w, sep, r, i, j);
    } else {
      NotOpenedBefore(ps, alnum, w, sep, r, j);
    }
  }

  lemma WrittenSplit(ps: seq<string>, alnum: char -> bool, w: string, sep: string, r: string, t: string)
    requires Alphabet(ps, alnum) && Word(alnum, w) && Separates(ps, alnum, sep, r)
    requires WrittenIn(ps, w + sep + r, t)
    ensures (sep in ps && t == sep) || WrittenIn(ps, r, t)
  {
    var s, k := w + sep + r, |w| + |sep|;
    var i: nat :| OccursAt(s, i, t);
    PlaceholderShape(ps, alnum, t);
    assert s[i] == t[0];
    Pieces(w, sep, r);
    if i >= k {
      assert OccursAt(r, i - k, t);
    } else {
      if sep in ps {
        PlaceholderShape(ps, alnum, sep);
      }
      assert i == |w|;
      assert (sep + r)[..|t|] == s[i..i + |t|];
      PlaceholderFound(ps, alnum, sep + r, t);
      if sep in ps {
        assert (sep + r)[..|sep|] == sep;
        PlaceholderFound(ps, alnum, sep + r, sep);
      }
    }
  }

  lemma RunSplit(ps: seq<string>, alnum: char -> bool, w: string, sep: string, r: string, t: string)
    requires Alphabet(ps, alnum) && Word(alnum, w) && Separates(ps, alnum, sep, r)
    requires RunOf(ps, alnum, w + sep + r, t)
    ensures (w != "" && t == w) || RunOf(ps, alnum, r, t)
  {
    var s, k := w + sep + r, |w| + |sep|;
    var i: nat, j: nat :| MaximalRun(alnum, s, i, j) && !Bracketed(ps, s, i, j) && t == s[i..j];
    Pieces(w, sep, r);
    if i >= k {
      RunInRest(ps, alnum, w, sep, r, i, j);
    } else if i < |w| {
      if sep in ps {
        PlaceholderShape(ps, alnum, sep);
      }
      assert s[|w|] == sep[0];
      assert s[0..|w|] == w;
    } else {
      NoRunInside(ps, alnum, w, sep, r, i, j);
    }
  }

  lemma RunInRest(ps: seq<string>, alnum: char -> bool, w: string, sep: string, r: string, i: nat, j: nat)
    requires var s := w + sep + r; MaximalRun(alnum, s, i, j) && !Bracketed(ps, s, i, j)
    requires i >= |w| + |sep|
    ensures RunOf(ps, alnum, r, (w + sep + r)[i..j])
  {
    var s, k := w + sep + r, |w| + |sep|;
    Pieces(w, sep, r);
    assert r[i - k..j - k] == s[i..j];
    assert forall x :: i - k <= x < j - k ==> r[x] == s[x + k];
    assert MaximalRun(alnum, r, i - k, j - k);
    assert !Bracketed(ps, r, i - k, j - k) by {
      if 0 < i - k && j - k < |r| {
        assert s[i - 1..j + 1] == r[i - k - 1..j - k + 1];
      }
    }
  }

  lemma NoRunInside(ps: seq<string>, alnum: char -> bool, w: string, sep: string, r: string, i: nat, j: nat)
    requires Alphabet(ps, alnum) && Separates(ps, alnum, sep, r)
    requires |w| <= i < |w| + |sep|
    requires MaximalRun(alnum, w + sep + r, i, j)
    ensures Bracketed(ps, w + sep + r, i, j)
  {
    var s, k := w + sep + r, |w| + |sep|;
    Pieces(w, sep, r);
    assert alnum(s[i]);
    PlaceholderShape(ps, alnum, sep);
    assert s[k - 1] == sep[|sep| - 1];
    assert s[i - 1..j + 1] == sep;
  }

  lemma SeparatorStep(ps: seq<string>, alnum: char -> bool, w: string, sep: string, r: string, t: string)
    requires Alphabet(ps, alnum) && Word(alnum, w) && Separates(ps, alnum, sep, r)
    ensures IsToken(ps, alnum, w + sep + r, t)
       <==> (w != "" && t == w) || (sep in ps && t == sep) || IsToken(ps, alnum, r, t)
  {
    TokenBefore(ps, alnum, w, sep, r);
    assert (w + sep + r)[|w| + |sep|..] == r;
    if WrittenIn(ps, r, t) {
      WrittenAfter(ps, w + sep + r, |w| + |sep|, t);
    } else if RunOf(ps, alnum, r, t) {
      RunAfter(ps, alnum, w, sep, r, t);
    }
    if WrittenIn(ps, w + sep + r, t) {
      WrittenSplit(ps, alnum, w, sep, r, t);
    } else if RunOf(ps, alnum, w + sep + r, t) {
      RunSplit(ps, alnum, w, sep, r, t);
    }
  }

  /** A text of letters and digits alone is its own and only token. */
  lemma WholeRun(ps: seq<string>, alnum: char -> bool, w: string, t: string)
    requires Alphabet(ps, alnum) && Word(alnum, w)
    ensures IsToken(ps, alnum, w, t) <==> w != "" && t == w
  {
    if w != "" {
      assert w[0..|w|] == w;
      assert MaximalRun(alnum, w, 0, |w|);
    }
    assert !WrittenIn(ps, w, t) by {
      if t in ps {
        PlaceholderShape(ps, alnum, t);
        forall i: nat ensures !OccursAt(w, i, t) {
          if i + |t| <= |w| {
            assert w[i..i + |t|][0] == w[i];
          }
        }
      }
    }
    if RunOf(ps, alnum, w, t) {
      var i: nat, j: nat :| MaximalRun(alnum, w, i, j) && !Bracketed(ps, w, i, j) && t == w[i..j];
      assert i == 0 && j == |w|;
    }
  }

  lemma {:induction false} PendingTokens(ps: seq<string>, alnum: char -> bool, w: string, rest: string, t: string)
    requires Alphabet(ps, alnum) && Word(alnum, w)
    ensures t in Pending(ps, alnum, w, rest) <==> IsToken(ps, alnum, w + rest, t)
    decreases |rest|
  {
    if rest == "" {
      assert w + rest == w;
      WholeRun(ps, alnum, w, t);
    } else {
      var p := PlaceholderAt(ps, rest);
      if p == "" && alnum(rest[0]) {
        PendingTokens(ps, alnum, w + [rest[0]], rest[1..], t);
        assert w + [rest[0]] + rest[1..] == w + rest;
      } else {
        PlaceholderFirst(ps, rest);
        var sep := if p == "" then [rest[0]] else p;
        var r := rest[|sep|..];
        assert rest == sep + r;
        assert w + rest == w + sep + r;
        PendingTokens(ps, alnum, "", r, t);
        assert "" + r == r;
        assert Separates(ps, alnum, sep, r);
        SeparatorStep(ps, alnum, w, sep, r, t);
      }
    }
  }

  /** The scan finds every token and nothing else. */
  lemma TokensAreExact(ps: seq<string>, alnum: char -> bool, s: string, t: string)
    requires Alphabet(ps, alnum)
    ensures t in TokenSet(ps, alnum, s) <==> IsToken(ps, alnum, s, t)
  {
    PendingTokens(ps, alnum, "", s, t);
    assert "" + s == s;
  }
}
