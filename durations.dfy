/**
 * The duration strings of the HDFS wait job ("17M 1D 5S 2H"): Java's
 * String.split on runs of whitespace, Long.valueOf on each token's numeric
 * prefix, and HdfsWaitJob.parseTime, which sums the tokens in milliseconds.
 */
module Durations {
  import opened Wrappers

  /** Why parseTime throws. */
  datatype ParseError =
    | EmptyToken               // str.substring(0, -1) on an empty token
    | BadNumber(token: string) // Long.valueOf rejects the prefix before the unit
    | BadUnit(token: string)   // the last character is not S, M, H or D

  // ---------------------------------------------------------------------
  // String.split("\\s+")
  // ---------------------------------------------------------------------

  /** The characters of the regular-expression class \s in java.util.regex. */
  predicate IsSpace(c: char) {
    c == ' ' || c == '\t' || c == '\n' || c == '\U{B}' || c == '\U{C}' || c == '\r'
  }

  predicate NoSpace(s: string) {
    forall i :: 0 <= i < |s| ==> !IsSpace(s[i])
  }

  /**
   * The pieces of `s` between maximal runs of whitespace, keeping the empty
   * piece before a leading run and after a trailing run.
   */
  function RawSplit(s: string): (pieces: seq<string>)
    ensures |pieces| >= 1
    ensures forall k :: 0 <= k < |pieces| ==> NoSpace(pieces[k])
    ensures NoSpace(s) ==> pieces == [s]
    decreases |s|
  {
    if s == [] then [""]
    else
      var init := RawSplit(s[..|s| - 1]);
      var c := s[|s| - 1];
      if !IsSpace(c) then
        assert NoSpace(s) ==> NoSpace(s[..|s| - 1]);
        assert s[..|s| - 1] + [c] == s;
        init[..|init| - 1] + [init[|init| - 1] + [c]]
      else if |s| >= 2 && IsSpace(s[|s| - 2]) then init
      else init + [""]
  }

  /** Removes the empty strings at the end, as split with limit 0 does. */
  function DropTrailingEmpty(pieces: seq<string>): (r: seq<string>)
    ensures r <= pieces
    ensures r == [] || r[|r| - 1] != ""
    ensures forall k :: |r| <= k < |pieces| ==> pieces[k] == ""
  {
    if pieces != [] && pieces[|pieces| - 1] == "" then DropTrailingEmpty(pieces[..|pieces| - 1])
    else pieces
  }

  /**
   * prop.split("\\s+"): a string without whitespace is its own only token
   * (so "" gives [""]); otherwise the pieces without the trailing empty ones.
   */
  function Split(s: string): (tokens: seq<string>)
    ensures forall k :: 0 <= k < |tokens| ==> NoSpace(tokens[k])
  {
    if NoSpace(s) then [s] else DropTrailingEmpty(RawSplit(s))
  }

  // ---------------------------------------------------------------------
  // Long.valueOf
  // ---------------------------------------------------------------------

  const LongMin: int := -0x8000_0000_0000_0000
  const LongMax: int := 0x7FFF_FFFF_FFFF_FFFF

  predicate IsDigit(c: char) { '0' <= c <= '9' }

  /** s[lo..hi] is nothing but digits. */
  predicate DigitsIn(s: string, lo: nat, hi: nat) {
    forall i :: lo <= i < hi && i < |s| ==> IsDigit(s[i])
  }

  /** The decimal value of the digits s[lo..hi]. */
  function DigitsValue(s: string, lo: nat, hi: nat): nat
    requires lo <= hi <= |s| && DigitsIn(s, lo, hi)
    decreases hi
  {
    if hi == lo then 0
    else DigitsValue(s, lo, hi - 1) * 10 + (s[hi - 1] as int - '0' as int)
  }

  /**
   * Long.valueOf(s.substring(0, upTo)): an optional sign followed by at least
   * one digit, whose value fits in a signed 64-bit long; anything else is
   * rejected.
   */
  function ParseLong(s: string, upTo: nat): (r: Option<int>)
    requires upTo <= |s|
    ensures r.Some? ==> LongMin <= r.value <= LongMax
    ensures r.Some? ==> upTo > 0 && (IsDigit(s[0]) || s[0] == '-' || s[0] == '+')
  {
    if upTo == 0 then None
    else
      var lo := if s[0] == '-' || s[0] == '+' then 1 else 0;
      if lo == upTo || !DigitsIn(s, lo, upTo) then None
      else
        var n: int := DigitsValue(s, lo, upTo);
        var v := if s[0] == '-' then -n else n;
        if LongMin <= v <= LongMax then Some(v) else None
  }

  // ---------------------------------------------------------------------
  // parseTime
  // ---------------------------------------------------------------------

  /**
   * One token: its numeric prefix is read first, then its last character is
   * checked as a unit. Only the empty token fails as EmptyToken, and a token
   * that parses is a number followed by one of the four unit letters.
   */
  function TokenMillis(t: string): (r: Result<int, ParseError>)
    ensures r == Err(EmptyToken) <==> t == []
    // a prefix that is no long fails as a number, whatever the last character
    ensures t != [] && ParseLong(t, |t| - 1).None? ==> r == Err(BadNumber(t))
    // a prefix that is a long fails as a unit unless the last character is a unit letter
    ensures t != [] && ParseLong(t, |t| - 1).Some? && t[|t| - 1] !in "SMHD" ==> r == Err(BadUnit(t))
    ensures r.Ok? ==> |t| >= 2 && t[|t| - 1] in "SMHD" && ParseLong(t, |t| - 1).Some?
  {
    if |t| == 0 then Err(EmptyToken)
    else match ParseLong(t, |t| - 1)
      case None => Err(BadNumber(t))
      case Some(n) =>
        var unit := t[|t| - 1];
        if unit == 'S' then Ok(n * 1000)
        else if unit == 'M' then Ok(n * 60_000)
        else if unit == 'H' then Ok(n * 3_600_000)
        else if unit == 'D' then Ok(n * 86_400_000)
        else Err(BadUnit(t))
  }

  /**
   * The total of a token sequence, read from the left: the first token that
   * fails decides the error, otherwise the token values are added up.
   */
  function TokensTotal(ts: seq<string>): Result<int, ParseError> {
    if ts == [] then Ok(0) else AddToken(TokensTotal(ts[..|ts| - 1]), ts[|ts| - 1])
  }

  /** One step of the parseTime loop: a failure so far stays; else the token is added. */
  function AddToken(acc: Result<int, ParseError>, t: string): Result<int, ParseError> {
    if acc.Err? then acc
    else
      var v := TokenMillis(t);
      if v.Err? then Err(v.error) else Ok(acc.value + v.value)
  }

  lemma TotalStep(ts: seq<string>, i: nat)
    requires i < |ts|
    ensures TokensTotal(ts[..i + 1]) == AddToken(TokensTotal(ts[..i]), ts[i])
  {
    assert ts[..i + 1][..i] == ts[..i];
  }

  lemma AddTokenOk(acc: int, t: string, v: int)
    requires TokenMillis(t) == Ok(v)
    ensures AddToken(Ok(acc), t) == Ok(acc + v)
  {
  }

  /** What parseTime(prop) returns or throws. */
  function ParseDuration(prop: string): Result<int, ParseError> {
    TokensTotal(Split(prop))
  }

  /** An error in a prefix of the tokens is the error of the whole sequence. */
  lemma {:induction false} ErrorPrefix(ts: seq<string>, k: nat)
    requires k <= |ts| && TokensTotal(ts[..k]).Err?
    ensures TokensTotal(ts) == TokensTotal(ts[..k])
    decreases |ts|
  {
    if k < |ts| {
      assert ts[..|ts| - 1][..k] == ts[..k];
      ErrorPrefix(ts[..|ts| - 1], k);
    } else {
      assert ts[..k] == ts;
    }
  }

  /**
   * HdfsWaitJob.parseTime: the for loop over the split tokens, reading each
   * token's numeric prefix through Long.valueOf and then its unit.
   */
  method ParseTime(prop: string) returns (r: Result<int, ParseError>)
    ensures r == ParseDuration(prop)
  {
    var strArray := Split(prop);
    var totalTime := 0;
    assert strArray[..0] == [];
    for i := 0 to |strArray|
      invariant TokensTotal(strArray[..i]) == Ok(totalTime)
    {
      TotalStep(strArray, i);
      var str := strArray[i];
      if |str| == 0 {
        ErrorPrefix(strArray, i + 1);
        return Err(EmptyToken);
      }
      var time := ParseLong(str, |str| - 1);
      if time.None? {
        ErrorPrefix(strArray, i + 1);
        return Err(BadNumber(str));
      }
      var unit := str[|str| - 1];
      var millis;
      if unit == 'S' {
        millis := time.value * 1000;
      } else if unit == 'M' {
        millis := time.value * 60_000;
      } else if unit == 'H' {
        millis := time.value * 3_600_000;
      } else if unit == 'D' {
        millis := time.value * 86_400_000;
      } else {
        ErrorPrefix(strArray, i + 1);
        return Err(BadUnit(str));
      }
      AddTokenOk(totalTime, str, millis);
      totalTime := totalTime + millis;
    }
    assert strArray[..|strArray|] == strArray;
    return Ok(totalTime);
  }

  // ---------------------------------------------------------------------
  // The total is additive, order-blind and all-or-nothing
  // ---------------------------------------------------------------------

  /** The total of two token sequences read one after the other. */
  function Combine(x: Result<int, ParseError>, y: Result<int, ParseError>): Result<int, ParseError> {
    if x.Err? then x else if y.Err? then y else Ok(x.value + y.value)
  }

  /** Parsing a concatenation: the first error wins, otherwise the totals add. */
  lemma {:induction false} TotalAppend(a: seq<string>, b: seq<string>)
    ensures TokensTotal(a + b) == Combine(TokensTotal(a), TokensTotal(b))
    decreases |b|
  {
    if b == [] {
      assert a + b == a;
    } else {
      var b' := b[..|b| - 1];
      var t := b[|b| - 1];
      assert (a + b)[..|a + b| - 1] == a + b';
      assert (a + b)[|a + b| - 1] == t;
      assert TokensTotal(a + b) == AddToken(TokensTotal(a + b'), t);
      assert TokensTotal(b) == AddToken(TokensTotal(b'), t);
      TotalAppend(a, b');
      CombineAdd(TokensTotal(a), TokensTotal(b'), t);
    }
  }

  /** Adding a token after combining is combining with the token added. */
  lemma CombineAdd(x: Result<int, ParseError>, y: Result<int, ParseError>, t: string)
    ensures Combine(x, AddToken(y, t)) == AddToken(Combine(x, y), t)
  {
  }

  /** Two results that agree on success and, on success, on the total. */
  predicate SameTotal(x: Result<int, ParseError>, y: Result<int, ParseError>) {
    (x.Ok? <==> y.Ok?) && (x.Ok? ==> x == y)
  }

  /** Taking out the j-th token and putting it last keeps the total. */
  lemma MoveToEnd(p: seq<string>, t: string, q: seq<string>)
    ensures SameTotal(TokensTotal(p + [t] + q), TokensTotal(p + q + [t]))
  {
    TotalAppend3(p, [t], q);
    TotalAppend3(p, q, [t]);
    CombineSwap(TokensTotal(p), TokensTotal([t]), TokensTotal(q));
  }

  lemma TotalAppend3(p: seq<string>, q: seq<string>, r: seq<string>)
    ensures TokensTotal(p + q + r) == Combine(Combine(TokensTotal(p), TokensTotal(q)), TokensTotal(r))
  {
    TotalAppend(p + q, r);
    TotalAppend(p, q);
  }

  lemma CombineSwap(x: Result<int, ParseError>, y: Result<int, ParseError>, z: Result<int, ParseError>)
    ensures SameTotal(Combine(Combine(x, y), z), Combine(Combine(x, z), y))
  {
  }

  lemma MultisetRemove(a: seq<string>, b: seq<string>, j: nat)
    requires j < |b| && multiset(a + [b[j]]) == multiset(b)
    ensures multiset(a) == multiset(b[..j] + b[j + 1..])
  {
    var t := b[j];
    assert b == b[..j] + [t] + b[j + 1..];
    calc {
      multiset(a) + multiset([t]);
      multiset(b);
      multiset(b[..j]) + multiset([t]) + multiset(b[j + 1..]);
      multiset(b[..j] + b[j + 1..]) + multiset([t]);
    }
    assert multiset(a) == multiset(a) + multiset([t]) - multiset([t]);
  }

  /**
   * Token order does not matter: any rearrangement of the tokens parses to
   * the same total, and fails exactly when the original fails.
   */
  lemma {:induction false} TotalPermutation(a: seq<string>, b: seq<string>)
    requires multiset(a) == multiset(b)
    ensures SameTotal(TokensTotal(a), TokensTotal(b))
    decreases |a|
  {
    if a == [] {
      assert b == [] by { assert |b| == |multiset(b)| == 0; }
    } else {
      var t := a[|a| - 1];
      var a' := a[..|a| - 1];
      assert a == a' + [t];
      assert t in multiset(b);
      var j :| 0 <= j < |b| && b[j] == t;
      var p, q := b[..j], b[j + 1..];
      assert b == p + [t] + q;
      MultisetRemove(a', b, j);
      TotalPermutation(a', p + q);
      SnocSame(a', p + q, t);
      MoveToEnd(p, t, q);
    }
  }

  /** Appending the same token to two sequences with the same total keeps them alike. */
  lemma SnocSame(x: seq<string>, y: seq<string>, t: string)
    requires SameTotal(TokensTotal(x), TokensTotal(y))
    ensures SameTotal(TokensTotal(x + [t]), TokensTotal(y + [t]))
  {
    TotalAppend(x, [t]);
    TotalAppend(y, [t]);
  }

  /** A token worth zero milliseconds ("0M", "0D") changes nothing wherever it stands. */
  lemma ZeroTokenNeutral(a: seq<string>, z: string, b: seq<string>)
    requires TokenMillis(z) == Ok(0)
    ensures TokensTotal(a + [z] + b) == TokensTotal(a + b)
  {
    SingleTokenTotal(z);
    AddTokenOk(0, z, 0);
    ZeroBlockNeutral(a, [z], b);
  }

  /** A run of tokens that parses to zero changes nothing wherever it stands. */
  lemma ZeroBlockNeutral(a: seq<string>, zs: seq<string>, b: seq<string>)
    requires TokensTotal(zs) == Ok(0)
    ensures TokensTotal(a + zs + b) == TokensTotal(a + b)
  {
    TotalAppend(a, zs);
    TotalAppend(a + zs, b);
    TotalAppend(a, b);
  }

  lemma SingleTokenTotal(t: string)
    ensures TokensTotal([t]) == AddToken(Ok(0), t)
  {
    assert [t][..0] == [];
  }

  /** parseTime succeeds exactly when every token is well formed. */
  lemma {:induction false} TotalOkIffAllTokensOk(ts: seq<string>)
    ensures TokensTotal(ts).Ok? <==> forall i :: 0 <= i < |ts| ==> TokenMillis(ts[i]).Ok?
    decreases |ts|
  {
    if ts != [] {
      var ts' := ts[..|ts| - 1];
      var last := ts[|ts| - 1];
      assert TokensTotal(ts).Ok? <==> TokensTotal(ts').Ok? && TokenMillis(last).Ok? by {
        assert TokensTotal(ts) == AddToken(TokensTotal(ts'), last);
        AddTokenOkIff(TokensTotal(ts'), last);
      }
      TotalOkIffAllTokensOk(ts');
      assert ts == ts' + [last];
      AllOkSnoc(ts', last);
    }
  }

  /** Every token of `ts + [t]` is well formed iff those of `ts` are and `t` is. */
  lemma AllOkSnoc(ts: seq<string>, t: string)
    ensures (forall i :: 0 <= i < |ts + [t]| ==> TokenMillis((ts + [t])[i]).Ok?) <==>
            (forall i :: 0 <= i < |ts| ==> TokenMillis(ts[i]).Ok?) && TokenMillis(t).Ok?
  {
    var xs := ts + [t];
    assert forall i :: 0 <= i < |ts| ==> xs[i] == ts[i];
    assert xs[|ts|] == t;
  }

  lemma AddTokenOkIff(acc: Result<int, ParseError>, t: string)
    ensures AddToken(acc, t).Ok? <==> acc.Ok? && TokenMillis(t).Ok?
  {
  }

  /** The error parseTime throws is that of the first malformed token; no partial total escapes. */
  lemma FirstBadTokenDecides(ts: seq<string>, i: nat)
    requires i < |ts| && TokenMillis(ts[i]).Err?
    requires forall j :: 0 <= j < i ==> TokenMillis(ts[j]).Ok?
    ensures TokensTotal(ts) == Err(TokenMillis(ts[i]).error)
  {
    var pre := ts[..i];
    TotalOkIffAllTokensOk(pre);
    TotalStep(ts, i);
    ErrorPrefix(ts, i + 1);
  }

  // ---------------------------------------------------------------------
  // Whitespace at the ends of the input
  // ---------------------------------------------------------------------

  /** One more whitespace character either extends the last run or opens a new empty piece. */
  lemma RawSplitSpace(s: string, c: char)
    requires IsSpace(c)
    ensures RawSplit(s + [c]) == if s != [] && IsSpace(s[|s| - 1]) then RawSplit(s) else RawSplit(s) + [""]
  {
    var s' := s + [c];
    assert s'[..|s'| - 1] == s;
    assert s'[|s'| - 1] == c;
  }

  /** One trailing empty piece is dropped. */
  lemma DropOneEmpty(pieces: seq<string>)
    ensures DropTrailingEmpty(pieces + [""]) == DropTrailingEmpty(pieces)
  {
    assert (pieces + [""])[..|pieces|] == pieces;
  }

  /** Trailing whitespace is tolerated: split drops the empty tokens it leaves. */
  lemma SplitTrailingSpace(s: string, c: char)
    requires s != [] && IsSpace(c)
    ensures Split(s + [c]) == Split(s)
  {
    var s' := s + [c];
    assert !NoSpace(s') by { assert IsSpace(s'[|s|]); }
    assert Split(s') == DropTrailingEmpty(RawSplit(s'));
    var raw := RawSplit(s);
    RawSplitSpace(s, c);
    if NoSpace(s) {
      assert raw == [s];
      DropOneEmpty([s]);
      assert DropTrailingEmpty([s]) == [s];
    } else if IsSpace(s[|s| - 1]) {
      assert RawSplit(s') == raw;
    } else {
      DropOneEmpty(raw);
    }
  }

  lemma TrailingSpaceIgnored(s: string, c: char)
    requires s != [] && IsSpace(c)
    ensures ParseDuration(s + [c]) == ParseDuration(s)
  {
    SplitTrailingSpace(s, c);
  }

  /** An empty property value fails: its only token is empty. */
  lemma EmptyInputFails()
    ensures ParseDuration("") == Err(EmptyToken)
  {
    assert Split("") == [""];
    assert [""][..0] == [];
  }

  // ---------------------------------------------------------------------
  // Rendering durations and reading them back
  // ---------------------------------------------------------------------

  /** The four units parseTime knows, with their letters. */
  datatype Unit = Seconds | Minutes | Hours | Days {
    function Letter(): char {
      match this
      case Seconds => 'S'
      case Minutes => 'M'
      case Hours => 'H'
      case Days => 'D'
    }
  }

  /** One token's worth: a magnitude and a unit. */
  datatype Amount = Amount(magnitude: nat, unit: Unit) {
    /** The magnitude times the unit's length in milliseconds. */
    function Millis(): nat {
      match unit
      case Seconds => magnitude * 1000
      case Minutes => magnitude * 60_000
      case Hours => magnitude * 3_600_000
      case Days => magnitude * 86_400_000
    }
  }

  function Digit(d: nat): (c: char)
    requires d < 10
    ensures IsDigit(c) && c as int - '0' as int == d
  {
    ('0' as int + d) as char
  }

  /** The decimal numeral of `n`, without sign or leading zeros. */
  function Decimal(n: nat): (ds: string)
    ensures ds != [] && DigitsIn(ds, 0, |ds|)
  {
    if n < 10 then [Digit(n)] else Decimal(n / 10) + [Digit(n % 10)]
  }

  lemma {:induction false} DecimalValue(n: nat)
    ensures DigitsValue(Decimal(n), 0, |Decimal(n)|) == n
  {
    if n >= 10 {
      var ds := Decimal(n);
      var p := Decimal(n / 10);
      DecimalValue(n / 10);
      DigitsValueSamePrefix(p, ds, 0, |p|);
    }
  }

  /** The value of a run of digits depends only on the characters in it. */
  lemma {:induction false} DigitsValueSamePrefix(s: string, t: string, lo: nat, hi: nat)
    requires lo <= hi <= |s| && hi <= |t| && DigitsIn(s, lo, hi)
    requires forall i :: 0 <= i < hi ==> s[i] == t[i]
    ensures DigitsIn(t, lo, hi) && DigitsValue(s, lo, hi) == DigitsValue(t, lo, hi)
    decreases hi
  {
    if hi > lo {
      DigitsValueSamePrefix(s, t, lo, hi - 1);
    }
  }

  function TokenOf(a: Amount): (t: string)
    ensures t != [] && NoSpace(t)
  {
    Decimal(a.magnitude) + [a.unit.Letter()]
  }

  /** A rendered token reads back as its magnitude times its unit's length. */
  lemma TokenOfMillis(a: Amount)
    requires a.magnitude <= LongMax
    ensures TokenMillis(TokenOf(a)) == Ok(a.Millis())
  {
    var t := TokenOf(a);
    var ds := Decimal(a.magnitude);
    DecimalValue(a.magnitude);
    DigitsValueSamePrefix(ds, t, 0, |ds|);
    assert ParseLong(t, |t| - 1) == Some(a.magnitude);
  }

  /** Tokens separated by single spaces. */
  function Join(ts: seq<string>): (j: string)
    ensures ts != [] && ts[|ts| - 1] != [] ==> j != [] && j[|j| - 1] == ts[|ts| - 1][|ts[|ts| - 1]| - 1]
  {
    if ts == [] then ""
    else if |ts| == 1 then ts[0]
    else Join(ts[..|ts| - 1]) + " " + ts[|ts| - 1]
  }

  /** A sign in front of a run of digits leaves its value alone. */
  lemma {:induction false} DigitsValueShift(ds: string, c: char, hi: nat)
    requires hi <= |ds| && DigitsIn(ds, 0, hi)
    ensures DigitsIn([c] + ds, 1, hi + 1) && DigitsValue([c] + ds, 1, hi + 1) == DigitsValue(ds, 0, hi)
    decreases hi
  {
    if hi > 0 {
      DigitsValueShift(ds, c, hi - 1);
      assert ([c] + ds)[hi] == ds[hi - 1];
    }
  }

  /** The numeric prefix of a rendered token behind a sign is the signed magnitude. */
  lemma SignedPrefix(a: Amount, c: char)
    requires a.magnitude <= LongMax && (c == '-' || c == '+')
    ensures ParseLong([c] + TokenOf(a), |TokenOf(a)|) == Some(if c == '-' then -(a.magnitude as int) else a.magnitude)
  {
    var ds := Decimal(a.magnitude);
    DecimalValue(a.magnitude);
    assert TokenOf(a) == ds + [a.unit.Letter()];
    DigitsValueShift(ds, c, |ds|);
    DigitsValueSamePrefix([c] + ds, [c] + TokenOf(a), 1, |ds| + 1);
  }

  /** A rendered token behind a sign reads back as the signed magnitude times the unit's length. */
  lemma SignedTokenMillis(a: Amount)
    requires a.magnitude <= LongMax
    ensures TokenMillis("-" + TokenOf(a)) == Ok(-(a.Millis() as int))
    ensures TokenMillis("+" + TokenOf(a)) == Ok(a.Millis())
  {
    assert "-" + TokenOf(a) == ['-'] + TokenOf(a);
    assert "+" + TokenOf(a) == ['+'] + TokenOf(a);
    SignedPrefix(a, '-');
    SignedPrefix(a, '+');
  }

  /** Splitting after a space and a word adds that word as one more piece. */
  lemma {:induction false} RawSplitWord(s: string, w: string)
    requires s != [] && !IsSpace(s[|s| - 1]) && NoSpace(w)
    ensures RawSplit(s + " " + w) == RawSplit(s) + [w]
    decreases |w|
  {
    if w == [] {
      assert s + " " + w == s + [' '];
      RawSplitSpace(s, ' ');
    } else {
      var w', c := w[..|w| - 1], w[|w| - 1];
      var x' := s + " " + w';
      assert x' + [c] == s + " " + w;
      RawSplitWord(s, w');
      RawSplitChar(x', c);
      var init := RawSplit(s);
      assert (init + [w'])[..|init|] == init;
      assert w' + [c] == w;
    }
  }

  /** A non-space character extends the last piece. */
  lemma RawSplitChar(t: string, c: char)
    requires !IsSpace(c)
    ensures RawSplit(t + [c]) == RawSplit(t)[..|RawSplit(t)| - 1] + [RawSplit(t)[|RawSplit(t)| - 1] + [c]]
  {
    var x := t + [c];
    assert x[..|x| - 1] == t;
  }

  lemma {:induction false} RawSplitJoin(ts: seq<string>)
    requires ts != []
    requires forall i :: 0 <= i < |ts| ==> ts[i] != [] && NoSpace(ts[i])
    ensures RawSplit(Join(ts)) == ts
    decreases |ts|
  {
    if |ts| > 1 {
      var ts' := ts[..|ts| - 1];
      var last := ts[|ts| - 1];
      assert ts' + [last] == ts;
      assert forall i :: 0 <= i < |ts'| ==> ts'[i] == ts[i];
      RawSplitJoin(ts');
      var prev := ts'[|ts'| - 1];
      assert prev != [] && NoSpace(prev);
      assert !IsSpace(prev[|prev| - 1]);
      assert Join(ts) == Join(ts') + " " + last;
      RawSplitWord(Join(ts'), last);
    }
  }

  /** Splitting single-space-separated words gives the words back. */
  lemma SplitJoin(ts: seq<string>)
    requires ts != []
    requires forall i :: 0 <= i < |ts| ==> ts[i] != [] && NoSpace(ts[i])
    ensures Split(Join(ts)) == ts
  {
    RawSplitJoin(ts);
    if |ts| > 1 {
      var j := Join(ts);
      var p := |Join(ts[..|ts| - 1])|;
      assert j[p] == ' ';
    }
  }

  /** The token of each amount, in order. */
  function Tokens(amounts: seq<Amount>): (ts: seq<string>)
    ensures |ts| == |amounts|
  {
    if amounts == [] then []
    else Tokens(amounts[..|amounts| - 1]) + [TokenOf(amounts[|amounts| - 1])]
  }

  lemma {:induction false} TokensAt(amounts: seq<Amount>)
    ensures forall i :: 0 <= i < |amounts| ==> Tokens(amounts)[i] == TokenOf(amounts[i])
    decreases |amounts|
  {
    if amounts != [] {
      TokensAt(amounts[..|amounts| - 1]);
    }
  }

  /** The duration string for a list of amounts, as a job property would hold it. */
  function Render(amounts: seq<Amount>): string {
    Join(Tokens(amounts))
  }

  /** The length in milliseconds of a list of amounts. */
  function WeightedSum(amounts: seq<Amount>): int {
    if amounts == [] then 0
    else WeightedSum(amounts[..|amounts| - 1]) + amounts[|amounts| - 1].Millis()
  }

  lemma {:induction false} TotalOfTokens(amounts: seq<Amount>)
    requires forall i :: 0 <= i < |amounts| ==> amounts[i].magnitude <= LongMax
    ensures TokensTotal(Tokens(amounts)) == Ok(WeightedSum(amounts))
    decreases |amounts|
  {
    if amounts != [] {
      var n := |amounts| - 1;
      var ts := Tokens(amounts);
      var prev := WeightedSum(amounts[..n]);
      var v := amounts[n].Millis();
      assert TokensTotal(ts[..n]) == Ok(prev) by {
        assert ts[..n] == Tokens(amounts[..n]);
        TotalOfTokens(amounts[..n]);
      }
      assert TokenMillis(ts[n]) == Ok(v) by {
        assert ts[n] == TokenOf(amounts[n]);
        TokenOfMillis(amounts[n]);
      }
      assert TokensTotal(ts) == AddToken(Ok(prev), ts[n]) by {
        TotalStep(ts, n);
        assert ts[..n + 1] == ts;
      }
      AddTokenOk(prev, ts[n], v);
      assert WeightedSum(amounts) == prev + v;
    }
  }

  /**
   * The total is a weighted sum: a non-empty list of amounts, rendered as
   * "17M 1D 5S 2H" is, parses to the sum of magnitude times unit length.
   */
  lemma ParseRender(amounts: seq<Amount>)
    requires amounts != []
    requires forall i :: 0 <= i < |amounts| ==> amounts[i].magnitude <= LongMax
    ensures ParseDuration(Render(amounts)) == Ok(WeightedSum(amounts))
  {
    TokensAt(amounts);
    SplitJoin(Tokens(amounts));
    TotalOfTokens(amounts);
  }

  /** Rendering one more amount appends a space and its token. */
  lemma RenderSnoc(amounts: seq<Amount>, a: Amount)
    requires amounts != []
    ensures Render(amounts + [a]) == Render(amounts) + " " + TokenOf(a)
    ensures WeightedSum(amounts + [a]) == WeightedSum(amounts) + a.Millis()
  {
    var xs := amounts + [a];
    assert xs[..|xs| - 1] == amounts;
  }

  /** A string of one amount's token. */
  lemma RenderOne(a: Amount)
    ensures Render([a]) == TokenOf(a)
    ensures WeightedSum([a]) == a.Millis()
  {
    assert [a][..0] == [];
  }

  /** The job's unit tests: "4D" and "0H". */
  lemma SingleTokenValues()
    ensures ParseDuration("4D") == Ok(345_600_000)
    ensures ParseDuration("0H") == Ok(0)
  {
    var d4, h0 := Amount(4, Days), Amount(0, Hours);
    RenderOne(d4);
    assert TokenOf(d4) == "4D";
    ParseRender([d4]);
    RenderOne(h0);
    assert TokenOf(h0) == "0H";
    ParseRender([h0]);
  }

  /** Two amounts render as their tokens around one space. */
  lemma RenderTwo(a: Amount, b: Amount)
    ensures Render([a, b]) == TokenOf(a) + " " + TokenOf(b)
    ensures WeightedSum([a, b]) == a.Millis() + b.Millis()
  {
    RenderOne(a);
    RenderSnoc([a], b);
    assert [a] + [b] == [a, b];
  }

  lemma RenderThree(a: Amount, b: Amount, c: Amount)
    ensures Render([a, b, c]) == TokenOf(a) + " " + TokenOf(b) + " " + TokenOf(c)
    ensures WeightedSum([a, b, c]) == a.Millis() + b.Millis() + c.Millis()
  {
    RenderTwo(a, b);
    RenderSnoc([a, b], c);
    assert [a, b] + [c] == [a, b, c];
  }

  lemma RenderFour(a: Amount, b: Amount, c: Amount, d: Amount)
    ensures Render([a, b, c, d]) == TokenOf(a) + " " + TokenOf(b) + " " + TokenOf(c) + " " + TokenOf(d)
    ensures WeightedSum([a, b, c, d]) == a.Millis() + b.Millis() + c.Millis() + d.Millis()
  {
    RenderThree(a, b, c);
    RenderSnoc([a, b, c], d);
    assert [a, b, c] + [d] == [a, b, c, d];
  }

  lemma TwoTokens(a: Amount, b: Amount, s: string)
    requires a.magnitude <= LongMax && b.magnitude <= LongMax
    requires s == TokenOf(a) + " " + TokenOf(b)
    ensures ParseDuration(s) == Ok(a.Millis() + b.Millis())
  {
    var amounts := [a, b];
    RenderTwo(a, b);
    ParseRender(amounts);
    assert Render(amounts) == s;
  }

  lemma ThreeTokens(a: Amount, b: Amount, c: Amount, s: string)
    requires a.magnitude <= LongMax && b.magnitude <= LongMax && c.magnitude <= LongMax
    requires s == TokenOf(a) + " " + TokenOf(b) + " " + TokenOf(c)
    ensures ParseDuration(s) == Ok(a.Millis() + b.Millis() + c.Millis())
  {
    var amounts := [a, b, c];
    RenderThree(a, b, c);
    ParseRender(amounts);
    assert Render(amounts) == s;
  }

  lemma FourTokens(a: Amount, b: Amount, c: Amount, d: Amount, s: string)
    requires a.magnitude <= LongMax && b.magnitude <= LongMax
    requires c.magnitude <= LongMax && d.magnitude <= LongMax
    requires s == TokenOf(a) + " " + TokenOf(b) + " " + TokenOf(c) + " " + TokenOf(d)
    ensures ParseDuration(s) == Ok(a.Millis() + b.Millis() + c.Millis() + d.Millis())
  {
    var amounts := [a, b, c, d];
    RenderFour(a, b, c, d);
    ParseRender(amounts);
    assert Render(amounts) == s;
  }

  /** The job's unit test "3M 2S". */
  lemma MinutesSecondsValue()
    ensures ParseDuration("3M 2S") == Ok(182_000)
  {
    TwoTokens(Amount(3, Minutes), Amount(2, Seconds), "3M 2S");
  }

  /** The job's unit test "1S 7D". */
  lemma SecondsDaysValue()
    ensures ParseDuration("1S 7D") == Ok(604_801_000)
  {
    TwoTokens(Amount(1, Seconds), Amount(7, Days), "1S 7D");
  }

  /** The job's unit test "99M 84H". */
  lemma MinutesHoursValue()
    ensures ParseDuration("99M 84H") == Ok(308_340_000)
  {
    assert TokenOf(Amount(99, Minutes)) == "99M";
    assert TokenOf(Amount(84, Hours)) == "84H";
    TwoTokens(Amount(99, Minutes), Amount(84, Hours), "99M 84H");
  }

  /** The job's unit test "4M 0D 16S": a zero token adds nothing. */
  lemma ThreeTokenValue()
    ensures ParseDuration("4M 0D 16S") == Ok(256_000)
  {
    assert TokenOf(Amount(4, Minutes)) == "4M";
    assert TokenOf(Amount(0, Days)) == "0D";
    assert TokenOf(Amount(16, Seconds)) == "16S";
    assert "4M" + " " + "0D" + " " + "16S" == "4M 0D 16S";
    ThreeTokens(Amount(4, Minutes), Amount(0, Days), Amount(16, Seconds), "4M 0D 16S");
  }

  /** The job's unit test "17M 1D 5S 2H": units in any order. */
  lemma MixedUnitsValue()
    ensures ParseDuration("17M 1D 5S 2H") == Ok(94_625_000)
  {
    assert TokenOf(Amount(17, Minutes)) == "17M";
    assert TokenOf(Amount(1, Days)) == "1D";
    assert TokenOf(Amount(5, Seconds)) == "5S";
    assert TokenOf(Amount(2, Hours)) == "2H";
    assert "17M" + " " + "1D" + " " + "5S" + " " + "2H" == "17M 1D 5S 2H";
    FourTokens(Amount(17, Minutes), Amount(1, Days), Amount(5, Seconds), Amount(2, Hours), "17M 1D 5S 2H");
  }

  /** The job's unit test "0M 2M 18M 0M": repeated units add up, zeros add nothing. */
  lemma RepeatedUnitValue()
    ensures ParseDuration("0M 2M 18M 0M") == Ok(1_200_000)
  {
    assert TokenOf(Amount(0, Minutes)) == "0M";
    assert TokenOf(Amount(2, Minutes)) == "2M";
    assert TokenOf(Amount(18, Minutes)) == "18M";
    assert "0M" + " " + "2M" + " " + "18M" + " " + "0M" == "0M 2M 18M 0M";
    FourTokens(Amount(0, Minutes), Amount(2, Minutes), Amount(18, Minutes), Amount(0, Minutes), "0M 2M 18M 0M");
  }

  /** Malformed tokens: a bare unit, a lower-case unit, an unknown unit, and a bad number before a bad unit. */
  lemma MalformedTokens()
    ensures TokenMillis("S") == Err(BadNumber("S"))
    ensures TokenMillis("5s") == Err(BadUnit("5s"))
    ensures TokenMillis("3X") == Err(BadUnit("3X"))
    ensures TokenMillis("xQ") == Err(BadNumber("xQ"))
  {
    assert ParseLong("5s", 1) == Some(5);
    assert ParseLong("3X", 1) == Some(3);
    assert !IsDigit('x');
  }

  /** Long.valueOf takes a sign: a negative magnitude counts backwards. */
  lemma SignedMagnitude()
    ensures TokenMillis("-5S") == Ok(-5000)
    ensures TokenMillis("+5S") == Ok(5000)
  {
    assert DigitsValue("-5S", 1, 2) == 5;
    assert DigitsValue("+5S", 1, 2) == 5;
  }

  /** Every character of `s` is whitespace. */
  predicate AllSpace(s: string) {
    forall i :: 0 <= i < |s| ==> IsSpace(s[i])
  }

  /** Input that starts with whitespace splits into an empty first piece and at least one more. */
  lemma {:induction false} RawSplitLeadingEmpty(s: string)
    requires s != [] && IsSpace(s[0])
    ensures |RawSplit(s)| >= 2 && RawSplit(s)[0] == ""
    decreases |s|
  {
    var init, c := s[..|s| - 1], s[|s| - 1];
    assert init + [c] == s;
    if init == [] {
      RawSplitSpace(init, c);
    } else {
      assert init[0] == s[0];
      RawSplitLeadingEmpty(init);
      if IsSpace(c) {
        RawSplitSpace(init, c);
      } else {
        RawSplitChar(init, c);
      }
    }
  }

  /** A non-space character of the input is character `j` of piece `k`. */
  lemma {:induction false} RawSplitWordPiece(s: string, i: nat) returns (k: nat, j: nat)
    requires i < |s| && !IsSpace(s[i])
    ensures k < |RawSplit(s)| && j < |RawSplit(s)[k]| && RawSplit(s)[k][j] == s[i]
    ensures RawSplit(s)[k] != ""
    decreases |s|
  {
    var init, c := s[..|s| - 1], s[|s| - 1];
    assert init + [c] == s;
    if i == |s| - 1 {
      RawSplitChar(init, c);
      k := |RawSplit(s)| - 1;
      j := |RawSplit(s)[k]| - 1;
    } else {
      assert init[i] == s[i];
      k, j := RawSplitWordPiece(init, i);
      if IsSpace(c) {
        RawSplitSpace(init, c);
        assert RawSplit(s)[k] == RawSplit(init)[k];
      } else {
        RawSplitChar(init, c);
        var last := |RawSplit(init)| - 1;
        assert k < last ==> RawSplit(s)[k] == RawSplit(init)[k];
        assert k == last ==> RawSplit(s)[k] == RawSplit(init)[k] + [c];
      }
    }
  }

  /** Whitespace-only input splits into empty pieces only. */
  lemma {:induction false} RawSplitAllEmpty(s: string)
    requires AllSpace(s)
    ensures forall k :: 0 <= k < |RawSplit(s)| ==> RawSplit(s)[k] == ""
    decreases |s|
  {
    if s != [] {
      var init, c := s[..|s| - 1], s[|s| - 1];
      assert init + [c] == s;
      RawSplitAllEmpty(init);
      RawSplitSpace(init, c);
    }
  }

  /**
   * Leading whitespace before a token leaves an empty first token, so the
   * call fails whatever follows (" 4D" among them).
   */
  lemma LeadingWhitespaceFails(s: string)
    requires s != [] && IsSpace(s[0]) && !AllSpace(s)
    ensures ParseDuration(s) == Err(EmptyToken)
  {
    assert !NoSpace(s);
    var i :| 0 <= i < |s| && !IsSpace(s[i]);
    var k, _ := RawSplitWordPiece(s, i);
    RawSplitLeadingEmpty(s);
    var ts := DropTrailingEmpty(RawSplit(s));
    assert k < |ts|;
    assert ts[0] == "";
    FirstBadTokenDecides(ts, 0);
  }

  /** Whitespace alone leaves no token at all, and the total is zero. */
  lemma OnlyWhitespaceIsZero(s: string)
    requires s != [] && AllSpace(s)
    ensures Split(s) == []
    ensures ParseDuration(s) == Ok(0)
  {
    assert !NoSpace(s) by { assert IsSpace(s[0]); }
    RawSplitAllEmpty(s);
  }
}
