/**
 * HtmlUtil.toText: the Azkaban response formatter. It maps a null string to
 * the empty string and otherwise rewrites five literal tags, one pass each,
 * into line separators or bullets. The patterns hold no regular-expression
 * metacharacters, so each replaceAll is a literal left-to-right replace-all.
 * The line separator is a parameter.
 */
module HtmlUtil {
  import opened Wrappers

  // ---------------------------------------------------------------------
  // Literal replace-all
  // ---------------------------------------------------------------------

  /** `pat` starts at index `i` of `s`. */
  predicate OccursAt(s: string, pat: string, i: int) {
    0 <= i <= |s| && pat <= s[i..]
  }

  predicate Contains(s: string, pat: string) {
    exists i :: 0 <= i <= |s| && OccursAt(s, pat, i)
  }

  /**
   * String.replaceAll with a pattern free of metacharacters and a replacement
   * free of '$' and '\\': scan from the left, replace each match, resume
   * after it.
   */
  function ReplaceAll(s: string, pat: string, rep: string): string
    requires pat != []
    decreases |s|
  {
    if s == [] then []
    else if pat <= s then rep + ReplaceAll(s[|pat|..], pat, rep)
    else [s[0]] + ReplaceAll(s[1..], pat, rep)
  }

  // ---------------------------------------------------------------------
  // toText
  // ---------------------------------------------------------------------

  const Br: string := "<br/>"
  const Ul: string := "<ul>"
  const UlEnd: string := "</ul>"
  const Li: string := "<li>"
  const LiEnd: string := "</li>"
  const Bullet: string := "* "

  /**
   * toText(html) with the given line separator; None is a null argument.
   * Null gives the empty string, and text without the five tags, other
   * markup such as <p> included, comes back unchanged.
   */
  function ToText(html: Option<string>, newline: string): (text: string)
    ensures html.None? ==> text == ""
    ensures html.Some? && TagFree(html.value) ==> text == html.value
  {
    match html
    case None => ""
    case Some(h) =>
      TagFreePasses(h, newline);
      var afterBr := ReplaceAll(h, Br, newline);
      var afterUl := ReplaceAll(afterBr, Ul, newline + newline);
      var afterUlEnd := ReplaceAll(afterUl, UlEnd, newline);
      var afterLi := ReplaceAll(afterUlEnd, Li, Bullet);
      ReplaceAll(afterLi, LiEnd, newline)
  }

  // ---------------------------------------------------------------------
  // Nothing else changes
  // ---------------------------------------------------------------------

  /** Helper: every pass leaves text without the five tags as it is. */
  lemma TagFreePasses(h: string, newline: string)
    ensures TagFree(h) ==>
      ReplaceAll(h, Br, newline) == h && ReplaceAll(h, Ul, newline + newline) == h
      && ReplaceAll(h, UlEnd, newline) == h && ReplaceAll(h, Li, Bullet) == h && ReplaceAll(h, LiEnd, newline) == h
  {
    if TagFree(h) {
      ReplaceAbsent(h, Br, newline);
      ReplaceAbsent(h, Ul, newline + newline);
      ReplaceAbsent(h, UlEnd, newline);
      ReplaceAbsent(h, Li, Bullet);
      ReplaceAbsent(h, LiEnd, newline);
    }
  }

  /** A pass whose pattern does not occur leaves the string as it is. */
  lemma {:induction false} ReplaceAbsent(s: string, pat: string, rep: string)
    requires pat != [] && !Contains(s, pat)
    ensures ReplaceAll(s, pat, rep) == s
    decreases |s|
  {
    if s != [] {
      assert !OccursAt(s, pat, 0);
      assert s[0..] == s;
      forall i | OccursAt(s[1..], pat, i) ensures false {
        ContainsShift(s, pat, i);
      }
      ReplaceAbsent(s[1..], pat, rep);
      assert [s[0]] + s[1..] == s;
    }
  }

  lemma ContainsShift(s: string, pat: string, i: int)
    requires s != [] && OccursAt(s[1..], pat, i)
    ensures OccursAt(s, pat, i + 1)
  {
    assert s[1..][i..] == s[i + 1..];
  }

  /** None of the five tags occurs in `s`. */
  predicate TagFree(s: string) {
    !Contains(s, Br) && !Contains(s, Ul) && !Contains(s, UlEnd) && !Contains(s, Li) && !Contains(s, LiEnd)
  }

  // ---------------------------------------------------------------------
  // Every tag is gone when the separator cannot rebuild one
  // ---------------------------------------------------------------------

  /** No character of `r` appears in `q`. */
  predicate Disjoint(r: string, q: string) {
    forall a, b :: 0 <= a < |r| && 0 <= b < |q| ==> r[a] != q[b]
  }

  /** An occurrence in a middle part shows up in the whole. */
  lemma ContainsInfix(a: string, b: string, c: string, q: string)
    requires Contains(b, q)
    ensures Contains(a + b + c, q)
  {
    var i :| 0 <= i <= |b| && OccursAt(b, q, i);
    var s := a + b + c;
    assert q == b[i..][..|q|];
    assert s[|a| + i..][..|q|] == b[i..][..|q|];
    assert OccursAt(s, q, |a| + i);
  }

  /** Helper: inside a match of `q` that overlaps `r`, the two agree on a character. */
  lemma SharedChar(x: string, r: string, y: string, q: string, i: int, k: int)
    requires OccursAt(x + r + y, q, i)
    requires i <= k < i + |q| && |x| <= k < |x| + |r|
    ensures q[k - i] == r[k - |x|]
  {
    var s := x + r + y;
    assert q[k - i] == s[i..][k - i] == s[k];
  }

  /**
   * A match of `q` in `x + r + y`, where `r` is non-empty and shares no
   * character with `q`, cannot overlap `r`.
   */
  lemma MatchAvoids(x: string, r: string, y: string, q: string, i: int)
    requires q != [] && r != [] && Disjoint(r, q)
    requires OccursAt(x + r + y, q, i)
    ensures i + |q| <= |x| || i >= |x| + |r|
  {
    var s := x + r + y;
    var k := if i < |x| then |x| else i;
    if k < i + |q| && k < |x| + |r| {
      SharedChar(x, r, y, q, i, k);
      assert false;
    }
  }

  /** A match that ends inside the left part is a match of the left part. */
  lemma OccursInLeft(x: string, z: string, q: string, i: int)
    requires OccursAt(x + z, q, i) && i + |q| <= |x|
    ensures OccursAt(x, q, i)
  {
    assert (x + z)[i..][..|q|] == x[i..][..|q|];
  }

  /** A match that starts inside the right part is a match of the right part. */
  lemma OccursInRight(x: string, z: string, q: string, i: int)
    requires OccursAt(x + z, q, i) && i >= |x|
    ensures OccursAt(z, q, i - |x|)
  {
    assert (x + z)[i..] == z[i - |x|..];
  }

  /**
   * An occurrence of `q` in `x + r + y`, where `r` is non-empty and shares no
   * character with `q`, lies wholly inside `x` or wholly inside `y`.
   */
  lemma NoStraddle(x: string, r: string, y: string, q: string)
    requires q != [] && r != [] && Disjoint(r, q)
    requires Contains(x + r + y, q)
    ensures Contains(x, q) || Contains(y, q)
  {
    var i :| 0 <= i <= |x + r + y| && OccursAt(x + r + y, q, i);
    MatchAvoids(x, r, y, q, i);
    if i + |q| <= |x| {
      assert x + r + y == x + (r + y);
      OccursInLeft(x, r + y, q, i);
    } else {
      OccursInRight(x + r, y, q, i);
      assert 0 <= i - |x + r| <= |y|;
    }
  }

  /** Contrapositive of NoStraddle. */
  lemma JoinAbsent(x: string, r: string, y: string, q: string)
    requires q != [] && r != [] && Disjoint(r, q)
    requires !Contains(x, q) && !Contains(y, q)
    ensures !Contains(x + r + y, q)
  {
    if Contains(x + r + y, q) {
      NoStraddle(x, r, y, q);
    }
  }

  /** A part of a string free of `q` is free of `q`. */
  lemma InfixAbsent(a: string, b: string, c: string, q: string)
    requires !Contains(a + b + c, q)
    ensures !Contains(b, q)
  {
    if Contains(b, q) {
      ContainsInfix(a, b, c, q);
    }
  }

  /** Text before the first match is copied through. */
  lemma {:induction false} UnmatchedPrefix(t: string, p: string, r: string, j: nat)
    requires p != [] && j <= |t|
    requires forall k :: 0 <= k < j ==> !OccursAt(t, p, k)
    ensures ReplaceAll(t, p, r) == t[..j] + ReplaceAll(t[j..], p, r)
    decreases j
  {
    if j > 0 {
      var t' := t[1..];
      assert !OccursAt(t, p, 0);
      assert t[0..] == t;
      assert ReplaceAll(t, p, r) == [t[0]] + ReplaceAll(t', p, r);
      forall k | 0 <= k < j - 1
        ensures !OccursAt(t', p, k)
      {
        if OccursAt(t', p, k) {
          ContainsShift(t, p, k);
        }
      }
      UnmatchedPrefix(t', p, r, j - 1);
      assert t'[j - 1..] == t[j..];
      assert [t[0]] + t'[..j - 1] == t[..j];
    }
  }

  /** The least index where `p` occurs in `t`, or |t| + 1 when it does not. */
  function FirstMatch(t: string, p: string): (m: nat)
    requires p != []
    ensures m <= |t| + 1
    ensures m <= |t| ==> OccursAt(t, p, m)
    ensures forall k :: 0 <= k < m && k <= |t| ==> !OccursAt(t, p, k)
    decreases |t|
  {
    if t == [] then 1
    else if p <= t then 0
    else
      var m' := FirstMatch(t[1..], p);
      assert forall k :: 1 <= k <= |t| && OccursAt(t, p, k) ==> OccursAt(t[1..], p, k - 1) by {
        forall k | 1 <= k <= |t| && OccursAt(t, p, k) ensures OccursAt(t[1..], p, k - 1) {
          assert t[1..][k - 1..] == t[k..];
        }
      }
      assert m' <= |t| - 1 ==> OccursAt(t, p, m' + 1) by {
        if m' <= |t| - 1 {
          ContainsShift(t, p, m');
        }
      }
      assert t[0..] == t;
      m' + 1
  }

  /** Helper: a replacement that begins inside the first |p| characters spoils the match. */
  lemma EarlyMatchSpoils(s: string, p: string, r: string, j: nat)
    requires p != [] && r != [] && Disjoint(r, p)
    requires s != [] && j <= |s| - 1 && OccursAt(s[1..], p, j) && j < |p| - 1
    requires forall k :: 0 <= k < j ==> !OccursAt(s[1..], p, k)
    ensures !(p <= [s[0]] + ReplaceAll(s[1..], p, r))
  {
    var t := s[1..];
    UnmatchedPrefix(t, p, r, j);
    var tail := t[j..];
    assert p <= tail;
    var rt := t[..j] + (r + ReplaceAll(tail[|p|..], p, r));
    assert ReplaceAll(t, p, r) == rt;
    var whole := [s[0]] + rt;
    assert whole[1 + j] == r[0];
    assert whole[1 + j] != p[1 + j];
  }

  /** Helper: when the first match in s[1..] starts late, the window is copied from `s`. */
  lemma LateMatchCopies(s: string, p: string, r: string, j: nat)
    requires p != [] && s != [] && !(p <= s)
    requires j <= |s| - 1 && |p| - 1 <= j
    requires forall k :: 0 <= k < j ==> !OccursAt(s[1..], p, k)
    ensures !(p <= [s[0]] + ReplaceAll(s[1..], p, r))
  {
    var t := s[1..];
    var m := |p| - 1;
    UnmatchedPrefix(t, p, r, j);
    var rt := ReplaceAll(t, p, r);
    assert rt[..m] == t[..m];
    var whole := [s[0]] + rt;
    assert whole[..|p|] == [s[0]] + t[..m];
    assert [s[0]] + t[..m] == s[..|p|];
  }

  /** Helper: after `s[0]` is copied through, no match of `p` starts at index 0. */
  lemma RootMatchImpossible(s: string, p: string, r: string)
    requires p != [] && r != [] && Disjoint(r, p)
    requires s != [] && !(p <= s)
    ensures !(p <= [s[0]] + ReplaceAll(s[1..], p, r))
  {
    var t := s[1..];
    var j := FirstMatch(t, p);
    if j <= |t| && j < |p| - 1 {
      EarlyMatchSpoils(s, p, r, j);
    } else if j <= |t| {
      LateMatchCopies(s, p, r, j);
    } else {
      ReplaceAbsent(t, p, r);
      assert [s[0]] + t == s;
    }
  }

  /**
   * A pass removes every occurrence of its pattern, provided the replacement
   * is non-empty and shares no character with the pattern.
   */
  lemma {:induction false} ReplaceRemovesPattern(s: string, p: string, r: string)
    requires p != [] && r != [] && Disjoint(r, p)
    ensures !Contains(ReplaceAll(s, p, r), p)
    decreases |s|
  {
    if s == [] {
    } else if p <= s {
      ReplaceRemovesPattern(s[|p|..], p, r);
      RemovedAfterMatch(s, p, r);
    } else {
      ReplaceRemovesPattern(s[1..], p, r);
      RemovedAfterSkip(s, p, r);
    }
  }

  /** Helper: a replacement followed by pattern-free text holds no pattern. */
  lemma RemovedAfterMatch(s: string, p: string, r: string)
    requires p != [] && r != [] && Disjoint(r, p) && p <= s
    requires !Contains(ReplaceAll(s[|p|..], p, r), p)
    ensures !Contains(ReplaceAll(s, p, r), p)
  {
    var rest := ReplaceAll(s[|p|..], p, r);
    assert ReplaceAll(s, p, r) == [] + r + rest;
    assert !Contains([], p);
    if Contains([] + r + rest, p) {
      NoStraddle([], r, rest, p);
    }
  }

  /** Helper: a kept first character followed by pattern-free text holds no pattern. */
  lemma RemovedAfterSkip(s: string, p: string, r: string)
    requires p != [] && r != [] && Disjoint(r, p) && s != [] && !(p <= s)
    requires !Contains(ReplaceAll(s[1..], p, r), p)
    ensures !Contains(ReplaceAll(s, p, r), p)
  {
    var rt := ReplaceAll(s[1..], p, r);
    var whole := [s[0]] + rt;
    assert ReplaceAll(s, p, r) == whole;
    RootMatchImpossible(s, p, r);
    forall i | 1 <= i <= |whole| && OccursAt(whole, p, i)
      ensures OccursAt(rt, p, i - 1)
    {
      assert rt[i - 1..] == whole[i..];
    }
  }

  /**
   * A later pass cannot bring back a pattern `q` already absent, provided its
   * replacement is non-empty and shares no character with `q`.
   */
  lemma {:induction false} ReplaceKeepsAbsent(w: string, s: string, p: string, r: string, q: string)
    requires p != [] && q != [] && r != [] && Disjoint(r, q)
    requires !Contains(w + s, q)
    ensures !Contains(w + ReplaceAll(s, p, r), q)
    decreases |s|
  {
    if s == [] {
      assert w + ReplaceAll(s, p, r) == w + s;
    } else if p <= s {
      var s' := s[|p|..];
      KeepAbsentAtMatch(w, s, p, q);
      ReplaceKeepsAbsent([], s', p, r, q);
      AbsentAfterMatch(w, s, p, r, q);
    } else {
      assert (w + [s[0]]) + s[1..] == w + s;
      ReplaceKeepsAbsent(w + [s[0]], s[1..], p, r, q);
      assert (w + [s[0]]) + ReplaceAll(s[1..], p, r) == w + ReplaceAll(s, p, r);
    }
  }

  /** Helper: the replacement and the rest rejoin the text before a match without making `q`. */
  lemma AbsentAfterMatch(w: string, s: string, p: string, r: string, q: string)
    requires p != [] && p <= s && q != [] && r != [] && Disjoint(r, q)
    requires !Contains(w, q) && !Contains([] + ReplaceAll(s[|p|..], p, r), q)
    ensures !Contains(w + ReplaceAll(s, p, r), q)
  {
    var rest := ReplaceAll(s[|p|..], p, r);
    assert [] + rest == rest;
    JoinAbsent(w, r, rest, q);
    assert w + ReplaceAll(s, p, r) == w + r + rest;
  }

  /** Helper: at a match, the text before and the text after are both free of `q`. */
  lemma KeepAbsentAtMatch(w: string, s: string, p: string, q: string)
    requires p <= s && !Contains(w + s, q)
    ensures !Contains(w, q) && !Contains([] + s[|p|..], q)
  {
    assert [] + w + s == w + s;
    InfixAbsent([], w, s, q);
    assert (w + s[..|p|]) + s[|p|..] + [] == w + s;
    InfixAbsent(w + s[..|p|], s[|p|..], [], q);
    assert [] + s[|p|..] == s[|p|..];
  }

  // ---------------------------------------------------------------------
  // toText removes the tags and is idempotent
  // ---------------------------------------------------------------------

  /** The characters the five tags are made of. */
  const TagChars: string := "<>/bruli"

  /**
   * A separator that can neither be empty nor help spell a tag, and that
   * replaceAll takes literally (no '$' group reference, no '\\' escape):
   * every platform line separator ("\n", "\r\n") is one.
   */
  predicate SafeSeparator(newline: string) {
    newline != [] && forall i :: 0 <= i < |newline| ==> newline[i] !in TagChars && newline[i] != '$' && newline[i] != '\\'
  }

  lemma LineSeparatorsAreSafe()
    ensures SafeSeparator("\n") && SafeSeparator("\r\n") && SafeSeparator("\r")
  {
  }

  /** Every character of `s` is one of the tag characters. */
  predicate OnlyTagChars(s: string) {
    forall b :: 0 <= b < |s| ==> s[b] in TagChars
  }

  /** No character of `s` is a tag character. */
  predicate NoTagChars(s: string) {
    forall a :: 0 <= a < |s| ==> s[a] !in TagChars
  }

  lemma TagCharsApart(r: string, tag: string)
    requires NoTagChars(r) && OnlyTagChars(tag)
    ensures Disjoint(r, tag)
  {
    forall a, b | 0 <= a < |r| && 0 <= b < |tag| ensures r[a] != tag[b] {
      assert r[a] !in TagChars && tag[b] in TagChars;
    }
  }

  lemma SafeIsDisjoint(newline: string)
    requires SafeSeparator(newline)
    ensures Disjoint(newline, Br) && Disjoint(newline, Ul) && Disjoint(newline, UlEnd)
    ensures Disjoint(newline, Li) && Disjoint(newline, LiEnd)
    ensures Disjoint(newline + newline, Br) && Disjoint(newline + newline, Ul)
    ensures Disjoint(newline + newline, UlEnd) && Disjoint(newline + newline, Li)
    ensures Disjoint(newline + newline, LiEnd)
    ensures Disjoint(Bullet, Br) && Disjoint(Bullet, Ul) && Disjoint(Bullet, UlEnd)
    ensures Disjoint(Bullet, Li) && Disjoint(Bullet, LiEnd)
  {
    var nl2 := newline + newline;
    assert NoTagChars(nl2) by {
      forall a | 0 <= a < |nl2| ensures nl2[a] !in TagChars {
        if a >= |newline| {
          assert nl2[a] == newline[a - |newline|];
        }
      }
    }
    assert NoTagChars(Bullet);
    assert OnlyTagChars(Br) && OnlyTagChars(Ul) && OnlyTagChars(UlEnd);
    assert OnlyTagChars(Li) && OnlyTagChars(LiEnd);
    forall r, tag | r in [newline, nl2, Bullet] && tag in [Br, Ul, UlEnd, Li, LiEnd]
      ensures Disjoint(r, tag)
    {
      TagCharsApart(r, tag);
    }
  }

  /** A string sharing no character with a non-empty pattern cannot contain it. */
  lemma DisjointAbsent(r: string, q: string)
    requires q != [] && Disjoint(r, q)
    ensures !Contains(r, q)
  {
    forall i | 0 <= i <= |r| ensures !OccursAt(r, q, i) {
      if i < |r| {
        assert r[i] != q[0];
        assert r[i..][0] == r[i];
      }
    }
  }

  /**
   * With a safe separator none of the five tags survives: each pass removes
   * its own tag and cannot rebuild one removed before.
   */
  lemma ToTextRemovesTags(html: string, newline: string)
    requires SafeSeparator(newline)
    ensures TagFree(ToText(Some(html), newline))
  {
    SafeIsDisjoint(newline);
    var nl2 := newline + newline;
    var afterBr := ReplaceAll(html, Br, newline);
    var afterUl := ReplaceAll(afterBr, Ul, nl2);
    var afterUlEnd := ReplaceAll(afterUl, UlEnd, newline);
    var afterLi := ReplaceAll(afterUlEnd, Li, Bullet);
    var result := ReplaceAll(afterLi, LiEnd, newline);
    ReplaceRemovesPattern(html, Br, newline);
    KeepAbsent(afterBr, Ul, nl2, Br);
    ReplaceRemovesPattern(afterBr, Ul, nl2);
    KeepAbsent(afterUl, UlEnd, newline, Br);
    KeepAbsent(afterUl, UlEnd, newline, Ul);
    ReplaceRemovesPattern(afterUl, UlEnd, newline);
    KeepAbsent(afterUlEnd, Li, Bullet, Br);
    KeepAbsent(afterUlEnd, Li, Bullet, Ul);
    KeepAbsent(afterUlEnd, Li, Bullet, UlEnd);
    ReplaceRemovesPattern(afterUlEnd, Li, Bullet);
    KeepAbsent(afterLi, LiEnd, newline, Br);
    KeepAbsent(afterLi, LiEnd, newline, Ul);
    KeepAbsent(afterLi, LiEnd, newline, UlEnd);
    KeepAbsent(afterLi, LiEnd, newline, Li);
    ReplaceRemovesPattern(afterLi, LiEnd, newline);
  }

  /** ReplaceKeepsAbsent for a whole string. */
  lemma KeepAbsent(s: string, p: string, r: string, q: string)
    requires p != [] && q != [] && r != [] && Disjoint(r, q)
    requires !Contains(s, q)
    ensures !Contains(ReplaceAll(s, p, r), q)
  {
    assert [] + s == s;
    ReplaceKeepsAbsent([], s, p, r, q);
    assert [] + ReplaceAll(s, p, r) == ReplaceAll(s, p, r);
  }

  /** Formatting formatted text changes nothing. */
  lemma ToTextIdempotent(html: string, newline: string)
    requires SafeSeparator(newline)
    ensures ToText(Some(ToText(Some(html), newline)), newline) == ToText(Some(html), newline)
  {
    ToTextRemovesTags(html, newline);
  }

  /**
   * A separator free of '<' and '>' is not enough for the tags to go: with
   * "br/" the first pass itself assembles a new "<br/>" out of "<<br/>>".
   */
  lemma AngleFreeSeparatorCanRebuildTag()
    ensures ToText(Some("<<br/>>"), "br/") == "<br/>"
    ensures Contains(ToText(Some("<<br/>>"), "br/"), Br)
  {
    FirstPassRebuilds();
    BrApart();
    var nl := "br/";
    ReplaceAbsent(Br, Ul, nl + nl);
    ReplaceAbsent(Br, UlEnd, nl);
    ReplaceAbsent(Br, Li, Bullet);
    ReplaceAbsent(Br, LiEnd, nl);
    assert OccursAt(Br, Br, 0);
  }

  /** Helper: the "<br/>" pass turns "<<br/>>" into "<br/>". */
  lemma FirstPassRebuilds()
    ensures ReplaceAll("<<br/>>", Br, "br/") == Br
  {
    var gt := ">";
    assert !(Br <= gt);
    assert gt[1..] == [];
    assert ReplaceAll(gt, Br, "br/") == gt;
    var inner := "<br/>>";
    assert Br <= inner;
    assert inner[5..] == gt;
    assert ReplaceAll(inner, Br, "br/") == "br/" + gt;
    var s := "<<br/>>";
    assert s[1] != Br[1];
    assert !(Br <= s);
    assert s[1..] == inner;
    assert ReplaceAll(s, Br, "br/") == [s[0]] + ("br/" + gt);
    assert [s[0]] + ("br/" + gt) == Br;
  }

  // ---------------------------------------------------------------------
  // Replacement rules, tag by tag
  // ---------------------------------------------------------------------

  /** No tag occurs at a position of `s` from which fewer than |tag| characters remain. */
  lemma ShortWindow(s: string, tag: string, i: int)
    requires 0 <= i <= |s| && |s| - i < |tag|
    ensures !OccursAt(s, tag, i)
  {
  }

  /** "<ul>" is not a piece of "</ul>", nor "<li>" of "</li>". */
  lemma OpeningNotInClosing()
    ensures !Contains(UlEnd, Ul) && !Contains(LiEnd, Li)
  {
    forall i | 0 <= i <= 5 ensures !OccursAt(UlEnd, Ul, i) && !OccursAt(LiEnd, Li, i) {
      if i == 0 {
        assert UlEnd[1] != Ul[1] && LiEnd[1] != Li[1];
      } else if i == 1 {
        assert UlEnd[1] != Ul[0] && LiEnd[1] != Li[0];
      } else {
        ShortWindow(UlEnd, Ul, i);
        ShortWindow(LiEnd, Li, i);
      }
    }
  }

  /** No window of `s` from index `i` on spells `q`. */
  predicate WindowsDiffer(s: string, q: string, i: nat)
    decreases |s| - i
  {
    i + |q| > |s| || (s[i..i + |q|] != q && WindowsDiffer(s, q, i + 1))
  }

  /** Absence of `q` read off the windows of `s`. */
  lemma {:induction false} AbsentByWindows(s: string, q: string, i: nat)
    requires WindowsDiffer(s, q, i)
    ensures forall j :: i <= j <= |s| ==> !OccursAt(s, q, j)
    decreases |s| - i
  {
    if i + |q| <= |s| {
      AbsentByWindows(s, q, i + 1);
      assert s[i..][..|q|] == s[i..i + |q|];
    }
  }

  lemma Absent(s: string, q: string)
    requires WindowsDiffer(s, q, 0)
    ensures !Contains(s, q)
  {
    AbsentByWindows(s, q, 0);
  }

  /** Each tag is free of every other tag. */
  lemma TagsApart()
    ensures !Contains(Br, Ul) && !Contains(Br, UlEnd) && !Contains(Br, Li) && !Contains(Br, LiEnd)
    ensures !Contains(Ul, Br) && !Contains(Ul, UlEnd) && !Contains(Ul, Li) && !Contains(Ul, LiEnd)
    ensures !Contains(UlEnd, Br) && !Contains(UlEnd, Ul) && !Contains(UlEnd, Li) && !Contains(UlEnd, LiEnd)
    ensures !Contains(Li, Br) && !Contains(Li, Ul) && !Contains(Li, UlEnd) && !Contains(Li, LiEnd)
    ensures !Contains(LiEnd, Br) && !Contains(LiEnd, Ul) && !Contains(LiEnd, UlEnd) && !Contains(LiEnd, Li)
  {
    OpeningNotInClosing();
    BrApart();
    UlApart();
    UlEndApart();
    LiApart();
    LiEndApart();
  }

  lemma BrApart()
    ensures !Contains(Br, Ul) && !Contains(Br, UlEnd) && !Contains(Br, Li) && !Contains(Br, LiEnd)
  {
    assert Br[0..4][1] != Ul[1] && Br[1..5][0] != Ul[0];
    Absent(Br, Ul);
    assert Br[0..5][1] != UlEnd[1];
    Absent(Br, UlEnd);
    assert Br[0..4][1] != Li[1] && Br[1..5][0] != Li[0];
    Absent(Br, Li);
    assert Br[0..5][1] != LiEnd[1];
    Absent(Br, LiEnd);
  }

  lemma UlApart()
    ensures !Contains(Ul, Br) && !Contains(Ul, UlEnd) && !Contains(Ul, Li) && !Contains(Ul, LiEnd)
  {
    Absent(Ul, Br);
    Absent(Ul, UlEnd);
    assert Ul[0..4][1] != Li[1];
    Absent(Ul, Li);
    Absent(Ul, LiEnd);
  }

  lemma UlEndApart()
    ensures !Contains(UlEnd, Br) && !Contains(UlEnd, Li) && !Contains(UlEnd, LiEnd)
  {
    assert UlEnd[0..5][1] != Br[1];
    Absent(UlEnd, Br);
    assert UlEnd[0..4][1] != Li[1] && UlEnd[1..5][0] != Li[0];
    Absent(UlEnd, Li);
    assert UlEnd[0..5][2] != LiEnd[2];
    Absent(UlEnd, LiEnd);
  }

  lemma LiApart()
    ensures !Contains(Li, Br) && !Contains(Li, Ul) && !Contains(Li, UlEnd) && !Contains(Li, LiEnd)
  {
    Absent(Li, Br);
    assert Li[0..4][1] != Ul[1];
    Absent(Li, Ul);
    Absent(Li, UlEnd);
    Absent(Li, LiEnd);
  }

  lemma LiEndApart()
    ensures !Contains(LiEnd, Br) && !Contains(LiEnd, Ul) && !Contains(LiEnd, UlEnd)
  {
    assert LiEnd[0..5][1] != Br[1];
    Absent(LiEnd, Br);
    assert LiEnd[0..4][1] != Ul[1] && LiEnd[1..5][0] != Ul[0];
    Absent(LiEnd, Ul);
    assert LiEnd[0..5][2] != UlEnd[2];
    Absent(LiEnd, UlEnd);
  }

  // ---------------------------------------------------------------------
  // A pass splits at a sealed piece
  // ---------------------------------------------------------------------

  /** No match of `p` in `a + b` starts in `a` and ends in `b`. */
  predicate Splits(a: string, b: string, p: string) {
    forall i :: 0 <= i < |a| < i + |p| ==> !OccursAt(a + b, p, i)
  }

  /** Where no match straddles the cut, a pass is the pass over each side. */
  lemma {:induction false} ReplaceSplits(a: string, b: string, p: string, r: string)
    requires p != [] && Splits(a, b, p)
    ensures ReplaceAll(a + b, p, r) == ReplaceAll(a, p, r) + ReplaceAll(b, p, r)
    decreases |a|
  {
    if a == [] {
      assert a + b == b;
    } else if p <= a {
      assert (a + b)[..|p|] == a[..|p|];
      assert (a + b)[|p|..] == a[|p|..] + b;
      SplitsDrop(a, b, p, |p|);
      ReplaceSplits(a[|p|..], b, p, r);
      assert ReplaceAll(a + b, p, r) == r + ReplaceAll(a[|p|..] + b, p, r);
    } else {
      NoMatchAtCut(a, b, p);
      assert (a + b)[1..] == a[1..] + b;
      SplitsDrop(a, b, p, 1);
      ReplaceSplits(a[1..], b, p, r);
      assert ReplaceAll(a + b, p, r) == [a[0]] + ReplaceAll(a[1..] + b, p, r);
    }
  }

  /** Dropping a prefix of the left side keeps the cut free of straddling matches. */
  lemma SplitsDrop(a: string, b: string, p: string, n: nat)
    requires n <= |a| && Splits(a, b, p)
    ensures Splits(a[n..], b, p)
  {
    forall i | 0 <= i < |a[n..]| < i + |p| ensures !OccursAt(a[n..] + b, p, i) {
      assert (a + b)[i + n..] == (a[n..] + b)[i..];
      assert !OccursAt(a + b, p, i + n);
    }
  }

  /** Helper: when `a` does not start with `p`, neither does `a + b`. */
  lemma NoMatchAtCut(a: string, b: string, p: string)
    requires a != [] && !(p <= a) && Splits(a, b, p)
    ensures !(p <= a + b)
  {
    if |p| <= |a| {
      assert (a + b)[..|p|] == a[..|p|];
    } else {
      assert (a + b)[0..] == a + b;
      assert !OccursAt(a + b, p, 0);
    }
  }

  /**
   * `t` cannot be entered by a match of `p` from either side: its first
   * character only starts `p` and its last only ends it.
   */
  predicate Sealed(t: string, p: string) {
    t != []
    && (forall j :: 0 < j < |p| ==> p[j] != t[0])
    && (forall j :: 0 <= j < |p| - 1 ==> p[j] != t[|t| - 1])
  }

  lemma BracketedSealed(m: string, p: string)
    requires Bracketed(m) && Bracketed(p)
    ensures Sealed(m, p)
  {
  }

  lemma DisjointSealed(r: string, p: string)
    requires r != [] && Disjoint(r, p)
    ensures Sealed(r, p)
  {
    assert forall j :: 0 <= j < |p| ==> p[j] != r[0] && p[j] != r[|r| - 1];
  }

  /** A pass over text around a sealed piece is the pass over the three parts. */
  lemma ReplaceAround(x: string, t: string, y: string, p: string, rep: string)
    requires p != [] && Sealed(t, p)
    ensures ReplaceAll(x + t + y, p, rep) == ReplaceAll(x, p, rep) + ReplaceAll(t, p, rep) + ReplaceAll(y, p, rep)
  {
    forall i | 0 <= i < |x| < i + |p| ensures !OccursAt(x + (t + y), p, i) {
      if OccursAt(x + (t + y), p, i) {
        MatchChar(x + (t + y), p, i, |x| - i);
      }
    }
    ReplaceSplits(x, t + y, p, rep);
    forall i | 0 <= i < |t| < i + |p| ensures !OccursAt(t + y, p, i) {
      if OccursAt(t + y, p, i) {
        MatchChar(t + y, p, i, |t| - 1 - i);
      }
    }
    ReplaceSplits(t, y, p, rep);
    assert x + t + y == x + (t + y);
  }

  /** `t` stays sealed against each pass's pattern as the passes before it rewrite it. */
  predicate SealedThroughPasses(t: string, newline: string) {
    var t1 := ReplaceAll(t, Br, newline);
    var t2 := ReplaceAll(t1, Ul, newline + newline);
    var t3 := ReplaceAll(t2, UlEnd, newline);
    var t4 := ReplaceAll(t3, Li, Bullet);
    Sealed(t, Br) && Sealed(t1, Ul) && Sealed(t2, UlEnd) && Sealed(t3, Li) && Sealed(t4, LiEnd)
  }

  /** toText of text around a piece sealed through every pass is toText of the three parts. */
  lemma ToTextAround(x: string, t: string, y: string, newline: string)
    requires SealedThroughPasses(t, newline)
    ensures ToText(Some(x + t + y), newline) == ToText(Some(x), newline) + ToText(Some(t), newline) + ToText(Some(y), newline)
  {
    var nl2 := newline + newline;
    var x1, t1, y1 := ReplaceAll(x, Br, newline), ReplaceAll(t, Br, newline), ReplaceAll(y, Br, newline);
    ReplaceAround(x, t, y, Br, newline);
    var x2, t2, y2 := ReplaceAll(x1, Ul, nl2), ReplaceAll(t1, Ul, nl2), ReplaceAll(y1, Ul, nl2);
    ReplaceAround(x1, t1, y1, Ul, nl2);
    var x3, t3, y3 := ReplaceAll(x2, UlEnd, newline), ReplaceAll(t2, UlEnd, newline), ReplaceAll(y2, UlEnd, newline);
    ReplaceAround(x2, t2, y2, UlEnd, newline);
    var x4, t4, y4 := ReplaceAll(x3, Li, Bullet), ReplaceAll(t3, Li, Bullet), ReplaceAll(y3, Li, Bullet);
    ReplaceAround(x3, t3, y3, Li, Bullet);
    ReplaceAround(x4, t4, y4, LiEnd, newline);
  }

  /** A tag's own pass replaces the tag whole. */
  lemma ReplaceWhole(m: string, rep: string)
    requires m != []
    ensures ReplaceAll(m, m, rep) == rep
  {
    assert m[|m|..] == [];
  }

  /** A pass leaves a piece sharing no character with its pattern as it is. */
  lemma PassSkipsDisjoint(r: string, p: string, rep: string)
    requires p != [] && Disjoint(r, p)
    ensures ReplaceAll(r, p, rep) == r
  {
    DisjointAbsent(r, p);
    ReplaceAbsent(r, p, rep);
  }

  /** A tag shaped like the five: '<' first and nowhere else, '>' last and nowhere else. */
  predicate Bracketed(q: string) {
    |q| >= 2 && q[0] == '<' && q[|q| - 1] == '>'
    && (forall j :: 0 < j < |q| ==> q[j] != '<')
    && (forall j :: 0 <= j < |q| - 1 ==> q[j] != '>')
  }

  lemma TagsBracketed()
    ensures Bracketed(Br) && Bracketed(Ul) && Bracketed(UlEnd) && Bracketed(Li) && Bracketed(LiEnd)
  {
    assert forall j :: 0 < j < 5 ==> Br[j] != '<' && UlEnd[j] != '<' && LiEnd[j] != '<';
    assert forall j :: 0 <= j < 4 ==> Br[j] != '>' && UlEnd[j] != '>' && LiEnd[j] != '>';
    assert forall j :: 0 < j < 4 ==> Ul[j] != '<' && Li[j] != '<';
    assert forall j :: 0 <= j < 3 ==> Ul[j] != '>' && Li[j] != '>';
  }

  /** Helper: a match of `q` at `i` spells `q` from index `i` on. */
  lemma MatchChar(s: string, q: string, i: int, j: int)
    requires OccursAt(s, q, i) && 0 <= j < |q|
    ensures s[i + j] == q[j]
  {
    assert s[i..][j] == s[i + j];
  }

  /**
   * A bracketed tag `q` cannot match across either end of a bracketed tag
   * `m`: in `x + m + y` it occurs only inside `x`, `m` or `y`.
   */
  lemma EnclosedAbsent(x: string, m: string, y: string, q: string)
    requires Bracketed(m) && Bracketed(q)
    requires !Contains(x, q) && !Contains(m, q) && !Contains(y, q)
    ensures !Contains(x + m + y, q)
  {
    var s := x + m + y;
    forall i | 0 <= i <= |s| ensures !OccursAt(s, q, i) {
      if OccursAt(s, q, i) {
        if i + |q| <= |x| {
          assert s == x + (m + y);
          OccursInLeft(x, m + y, q, i);
        } else if i < |x| {
          MatchChar(s, q, i, |x| - i);
        } else if i >= |x| + |m| {
          OccursInRight(x + m, y, q, i);
        } else if i + |q| <= |x| + |m| {
          assert s == x + (m + y);
          OccursInRight(x, m + y, q, i);
          OccursInLeft(m, y, q, i - |x|);
        } else {
          MatchChar(s, q, i, |x| + |m| - 1 - i);
        }
      }
    }
  }

  /** A pass for another tag, neither found in `m` nor in the text around it, changes nothing. */
  lemma PassSkipsTag(x: string, m: string, y: string, p: string, rep: string)
    requires Bracketed(m) && Bracketed(p)
    requires !Contains(x, p) && !Contains(m, p) && !Contains(y, p)
    ensures ReplaceAll(x + m + y, p, rep) == x + m + y
  {
    EnclosedAbsent(x, m, y, p);
    ReplaceAbsent(x + m + y, p, rep);
  }

  /** The earlier passes leave "</ul>" and "</li>" whole wherever they stand in tag-free text. */
  lemma ClosingTagsNotSplit(x: string, y: string, rep: string)
    requires TagFree(x) && TagFree(y)
    ensures ReplaceAll(x + UlEnd + y, Ul, rep) == x + UlEnd + y
    ensures ReplaceAll(x + LiEnd + y, Li, rep) == x + LiEnd + y
  {
    TagsBracketed();
    OpeningNotInClosing();
    PassSkipsTag(x, UlEnd, y, Ul, rep);
    PassSkipsTag(x, LiEnd, y, Li, rep);
  }

  /** Every "<br/>" becomes one separator, whatever text surrounds it. */
  lemma BrAnywhere(x: string, y: string, newline: string)
    requires SafeSeparator(newline)
    ensures ToText(Some(x + Br + y), newline) == ToText(Some(x), newline) + newline + ToText(Some(y), newline)
  {
    TagsBracketed();
    SafeIsDisjoint(newline);
    BracketedSealed(Br, Br);
    ReplaceWhole(Br, newline);
    DisjointSealed(newline, Ul);
    PassSkipsDisjoint(newline, Ul, newline + newline);
    DisjointSealed(newline, UlEnd);
    PassSkipsDisjoint(newline, UlEnd, newline);
    DisjointSealed(newline, Li);
    PassSkipsDisjoint(newline, Li, Bullet);
    DisjointSealed(newline, LiEnd);
    PassSkipsDisjoint(newline, LiEnd, newline);
    ToTextAround(x, Br, y, newline);
  }

  /** Every "<ul>" becomes two separators, whatever text surrounds it. */
  lemma UlAnywhere(x: string, y: string, newline: string)
    requires SafeSeparator(newline)
    ensures ToText(Some(x + Ul + y), newline) == ToText(Some(x), newline) + (newline + newline) + ToText(Some(y), newline)
  {
    var nl2 := newline + newline;
    TagsBracketed();
    TagsApart();
    SafeIsDisjoint(newline);
    BracketedSealed(Ul, Br);
    ReplaceAbsent(Ul, Br, newline);
    BracketedSealed(Ul, Ul);
    ReplaceWhole(Ul, nl2);
    DisjointSealed(nl2, UlEnd);
    PassSkipsDisjoint(nl2, UlEnd, newline);
    DisjointSealed(nl2, Li);
    PassSkipsDisjoint(nl2, Li, Bullet);
    DisjointSealed(nl2, LiEnd);
    PassSkipsDisjoint(nl2, LiEnd, newline);
    ToTextAround(x, Ul, y, newline);
  }

  /** Every "</ul>" becomes one separator, whatever text surrounds it. */
  lemma UlEndAnywhere(x: string, y: string, newline: string)
    requires SafeSeparator(newline)
    ensures ToText(Some(x + UlEnd + y), newline) == ToText(Some(x), newline) + newline + ToText(Some(y), newline)
  {
    TagsBracketed();
    TagsApart();
    SafeIsDisjoint(newline);
    BracketedSealed(UlEnd, Br);
    ReplaceAbsent(UlEnd, Br, newline);
    BracketedSealed(UlEnd, Ul);
    ReplaceAbsent(UlEnd, Ul, newline + newline);
    BracketedSealed(UlEnd, UlEnd);
    ReplaceWhole(UlEnd, newline);
    DisjointSealed(newline, Li);
    PassSkipsDisjoint(newline, Li, Bullet);
    DisjointSealed(newline, LiEnd);
    PassSkipsDisjoint(newline, LiEnd, newline);
    ToTextAround(x, UlEnd, y, newline);
  }

  /** Every "<li>" becomes a bullet, whatever text surrounds it. */
  lemma LiAnywhere(x: string, y: string, newline: string)
    requires SafeSeparator(newline)
    ensures ToText(Some(x + Li + y), newline) == ToText(Some(x), newline) + Bullet + ToText(Some(y), newline)
  {
    TagsBracketed();
    TagsApart();
    SafeIsDisjoint(newline);
    BracketedSealed(Li, Br);
    ReplaceAbsent(Li, Br, newline);
    BracketedSealed(Li, Ul);
    ReplaceAbsent(Li, Ul, newline + newline);
    BracketedSealed(Li, UlEnd);
    ReplaceAbsent(Li, UlEnd, newline);
    BracketedSealed(Li, Li);
    ReplaceWhole(Li, Bullet);
    DisjointSealed(Bullet, LiEnd);
    PassSkipsDisjoint(Bullet, LiEnd, newline);
    ToTextAround(x, Li, y, newline);
  }

  /** Every "</li>" becomes one separator, whatever text surrounds it. */
  lemma LiEndAnywhere(x: string, y: string, newline: string)
    requires SafeSeparator(newline)
    ensures ToText(Some(x + LiEnd + y), newline) == ToText(Some(x), newline) + newline + ToText(Some(y), newline)
  {
    TagsBracketed();
    TagsApart();
    BracketedSealed(LiEnd, Br);
    ReplaceAbsent(LiEnd, Br, newline);
    BracketedSealed(LiEnd, Ul);
    ReplaceAbsent(LiEnd, Ul, newline + newline);
    BracketedSealed(LiEnd, UlEnd);
    ReplaceAbsent(LiEnd, UlEnd, newline);
    BracketedSealed(LiEnd, Li);
    ReplaceAbsent(LiEnd, Li, Bullet);
    BracketedSealed(LiEnd, LiEnd);
    ReplaceWhole(LiEnd, newline);
    ToTextAround(x, LiEnd, y, newline);
  }

  /** Text with no tag character is copied through, whatever text surrounds it. */
  lemma PlainAnywhere(x: string, t: string, y: string, newline: string)
    requires t != [] && NoTagChars(t)
    ensures ToText(Some(x + t + y), newline) == ToText(Some(x), newline) + t + ToText(Some(y), newline)
  {
    assert OnlyTagChars(Br) && OnlyTagChars(Ul) && OnlyTagChars(UlEnd);
    assert OnlyTagChars(Li) && OnlyTagChars(LiEnd);
    TagCharsApart(t, Br);
    DisjointSealed(t, Br);
    PassSkipsDisjoint(t, Br, newline);
    TagCharsApart(t, Ul);
    DisjointSealed(t, Ul);
    PassSkipsDisjoint(t, Ul, newline + newline);
    TagCharsApart(t, UlEnd);
    DisjointSealed(t, UlEnd);
    PassSkipsDisjoint(t, UlEnd, newline);
    TagCharsApart(t, Li);
    DisjointSealed(t, Li);
    PassSkipsDisjoint(t, Li, Bullet);
    TagCharsApart(t, LiEnd);
    DisjointSealed(t, LiEnd);
    PassSkipsDisjoint(t, LiEnd, newline);
    ToTextAround(x, t, y, newline);
  }

  /** "<br/>" between tag-free text becomes one separator. */
  lemma BrRule(x: string, y: string, newline: string)
    requires SafeSeparator(newline) && TagFree(x) && TagFree(y)
    ensures ToText(Some(x + Br + y), newline) == x + newline + y
  {
    BrAnywhere(x, y, newline);
  }

  /** "<ul>" between tag-free text becomes two separators. */
  lemma UlRule(x: string, y: string, newline: string)
    requires SafeSeparator(newline) && TagFree(x) && TagFree(y)
    ensures ToText(Some(x + Ul + y), newline) == x + (newline + newline) + y
  {
    UlAnywhere(x, y, newline);
  }

  /** "</ul>" between tag-free text becomes one separator. */
  lemma UlEndRule(x: string, y: string, newline: string)
    requires SafeSeparator(newline) && TagFree(x) && TagFree(y)
    ensures ToText(Some(x + UlEnd + y), newline) == x + newline + y
  {
    UlEndAnywhere(x, y, newline);
  }

  /** "<li>" between tag-free text becomes a bullet. */
  lemma LiRule(x: string, y: string, newline: string)
    requires SafeSeparator(newline) && TagFree(x) && TagFree(y)
    ensures ToText(Some(x + Li + y), newline) == x + Bullet + y
  {
    LiAnywhere(x, y, newline);
  }

  /** "</li>" between tag-free text becomes one separator. */
  lemma LiEndRule(x: string, y: string, newline: string)
    requires SafeSeparator(newline) && TagFree(x) && TagFree(y)
    ensures ToText(Some(x + LiEnd + y), newline) == x + newline + y
  {
    LiEndAnywhere(x, y, newline);
  }

  /** A list item of plain text becomes a bullet line, whatever text comes before it. */
  lemma ListItem(x: string, item: string, newline: string)
    requires SafeSeparator(newline) && item != [] && NoTagChars(item)
    ensures ToText(Some(x + Li + item + LiEnd), newline) == ToText(Some(x), newline) + Bullet + item + newline
  {
    assert TagFree("");
    // the rules above carry the whole proof; unfolding the passes only costs
    hide ToText, TagFree;
    assert ToText(Some(x + Li), newline) == ToText(Some(x), newline) + Bullet by {
      assert x + Li == x + Li + "";
      LiAnywhere(x, "", newline);
    }
    assert ToText(Some(x + Li + item), newline) == ToText(Some(x), newline) + Bullet + item by {
      assert x + Li + item == x + Li + item + "";
      PlainAnywhere(x + Li, item, "", newline);
    }
    assert x + Li + item + LiEnd == x + Li + item + LiEnd + "";
    LiEndAnywhere(x + Li + item, "", newline);
  }

  /** A two-item list, "<ul><li>one</li><li>two</li></ul>": each tag is rewritten where it stands. */
  lemma TwoItemList(newline: string)
    requires SafeSeparator(newline)
    ensures ToText(Some(Ul + Li + "one" + LiEnd + Li + "two" + LiEnd + UlEnd), newline)
         == newline + newline + Bullet + "one" + newline + Bullet + "two" + newline + newline
  {
    assert TagFree("");
    assert NoTagChars("one") && NoTagChars("two");
    hide ToText, TagFree;
    var x1 := Ul;
    var x2 := x1 + Li + "one" + LiEnd;
    var x3 := x2 + Li + "two" + LiEnd;
    assert ToText(Some(x1), newline) == newline + newline by {
      assert x1 == "" + Ul + "";
      UlAnywhere("", "", newline);
    }
    ListItem(x1, "one", newline);
    ListItem(x2, "two", newline);
    assert x3 + UlEnd == x3 + UlEnd + "";
    UlEndAnywhere(x3, "", newline);
  }
}
