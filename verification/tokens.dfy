/**
  Rust's `str::split_whitespace` and `str::trim`, the tokenizer every
  decoder shares. Whitespace is `char::is_whitespace`: the Unicode
  White_Space property.
 */
module Tokens {

  /** `char::is_whitespace`. */
  predicate IsWhitespace(c: char)
  {
    || c == ' '
    || ('\U{0009}' <= c <= '\U{000D}')
    || c == '\U{0085}' || c == '\U{00A0}' || c == '\U{1680}'
    || ('\U{2000}' <= c <= '\U{200A}')
    || c == '\U{2028}' || c == '\U{2029}' || c == '\U{202F}' || c == '\U{205F}' || c == '\U{3000}'
  }

  predicate NoWhitespace(s: string)
  {
    forall i :: 0 <= i < |s| ==> !IsWhitespace(s[i])
  }

  /** Text made of whitespace only, possibly none. */
  predicate Blank(s: string)
  {
    forall i :: 0 <= i < |s| ==> IsWhitespace(s[i])
  }

  /** A token as `split_whitespace` yields it: non-empty, no whitespace. */
  predicate IsToken(s: string)
  {
    |s| > 0 && NoWhitespace(s)
  }

  /** Length of the run of non-whitespace characters that starts `s`. */
  function RunLength(s: string): (n: nat)
    ensures n <= |s|
    ensures forall i :: 0 <= i < n ==> !IsWhitespace(s[i])
    ensures n < |s| ==> IsWhitespace(s[n])
  {
    if s == [] || IsWhitespace(s[0]) then 0 else 1 + RunLength(s[1..])
  }

  /** `split_whitespace`: the maximal non-whitespace runs of `s`, in order. */
  function Split(s: string): (ts: seq<string>)
    ensures forall i :: 0 <= i < |ts| ==> IsToken(ts[i])
    decreases |s|
  {
    if s == [] then []
    else if IsWhitespace(s[0]) then Split(s[1..])
    else
      var n := RunLength(s);
      [s[..n]] + Split(s[n..])
  }

  /** `str::trim_start`. */
  function TrimStart(s: string): string
  {
    if s != [] && IsWhitespace(s[0]) then TrimStart(s[1..]) else s
  }

  /** `str::trim_end`. */
  function TrimEnd(s: string): string
  {
    if s != [] && IsWhitespace(s[|s| - 1]) then TrimEnd(s[..|s| - 1]) else s
  }

  /** `str::trim`. */
  function Trim(s: string): string
  {
    TrimEnd(TrimStart(s))
  }

  /** Tokens joined with a single space, the inverse of `Split`. */
  function Join(ts: seq<string>): string
  {
    if ts == [] then [] else if |ts| == 1 then ts[0] else ts[0] + " " + Join(ts[1..])
  }

  /** Trimming a token is the identity: the `.trim()` the decoders apply
      to the word never changes it. */
  lemma TrimToken(s: string)
    requires NoWhitespace(s)
    ensures Trim(s) == s
  {
  }

  /** Trimming leaves no whitespace at either end. */
  lemma {:induction false} TrimmedEnds(s: string)
    ensures var t := Trim(s); t != [] ==> !IsWhitespace(t[0]) && !IsWhitespace(t[|t| - 1])
  {
    TrimStartFront(s);
    TrimEndKeepsFront(TrimStart(s));
  }

  lemma {:induction false} TrimStartFront(s: string)
    ensures var t := TrimStart(s); t != [] ==> !IsWhitespace(t[0])
  {
    if s != [] && IsWhitespace(s[0]) {
      TrimStartFront(s[1..]);
    }
  }

  lemma {:induction false} TrimEndKeepsFront(s: string)
    requires s != [] ==> !IsWhitespace(s[0])
    ensures var t := TrimEnd(s); t != [] ==> t[0] == s[0] && !IsWhitespace(t[|t| - 1])
  {
    if s != [] && IsWhitespace(s[|s| - 1]) {
      TrimEndKeepsFront(s[..|s| - 1]);
    }
  }

  lemma {:induction false} SplitAllWhitespace(s: string)
    requires Blank(s)
    ensures Split(s) == []
    decreases |s|
  {
    if s != [] {
      SplitAllWhitespace(s[1..]);
    }
  }

  /** Splitting a token followed by whitespace and more text yields the
      token, then the tokens of the rest. */
  lemma {:induction false} SplitCons(t: string, rest: string)
    requires IsToken(t)
    ensures Split(t + " " + rest) == [t] + Split(rest)
  {
    var s := t + " " + rest;
    RunLengthOfToken(t, " " + rest);
    assert s[..|t|] == t;
    assert s[|t|..] == " " + rest;
    assert (" " + rest)[1..] == rest;
  }

  lemma {:induction false} RunLengthOfToken(t: string, rest: string)
    requires NoWhitespace(t)
    requires rest == [] || IsWhitespace(rest[0])
    ensures RunLength(t + rest) == |t|
    decreases |t|
  {
    if t == [] {
      assert t + rest == rest;
    } else {
      assert (t + rest)[1..] == t[1..] + rest;
      RunLengthOfToken(t[1..], rest);
    }
  }

  /** A lone token splits to itself. */
  lemma SplitToken(t: string)
    requires IsToken(t)
    ensures Split(t) == [t]
  {
    RunLengthOfToken(t, []);
    assert t + [] == t;
    assert t[|t|..] == [];
  }

  /** Round trip: splitting the space-joined tokens gives them back, in
      order. */
  lemma {:induction false} SplitJoin(ts: seq<string>)
    requires forall i :: 0 <= i < |ts| ==> IsToken(ts[i])
    ensures Split(Join(ts)) == ts
  {
    if ts == [] {
    } else if |ts| == 1 {
      SplitToken(ts[0]);
    } else {
      SplitCons(ts[0], Join(ts[1..]));
      SplitJoin(ts[1..]);
    }
  }

  /** Whitespace separates: the tokens of `a`, one whitespace character
      `c`, then `b` are the tokens of `a` followed by those of `b`. With
      `SplitToken` and `SplitAllWhitespace` this fixes `Split` on every
      string. */
  lemma {:induction false} SplitSep(a: string, c: char, b: string)
    requires IsWhitespace(c)
    ensures Split(a + [c] + b) == Split(a) + Split(b)
    decreases |a|
  {
    if a == [] {
      assert (a + [c] + b)[1..] == b;
    } else if IsWhitespace(a[0]) {
      assert (a + [c] + b)[1..] == a[1..] + [c] + b;
      SplitSep(a[1..], c, b);
    } else if RunLength(a) < |a| {
      var m := RunLength(a);
      SplitSep(a[m..], c, b);
      SplitSepRun(a, c, b);
    } else {
      SplitSepToken(a, c, b);
    }
  }

  /** `SplitSep` when `a` starts with a token that ends inside `a`. */
  lemma SplitSepRun(a: string, c: char, b: string)
    requires a != [] && !IsWhitespace(a[0]) && RunLength(a) < |a|
    requires Split(a[RunLength(a)..] + [c] + b) == Split(a[RunLength(a)..]) + Split(b)
    ensures Split(a + [c] + b) == Split(a) + Split(b)
  {
    var s := a + [c] + b;
    var m := RunLength(a);
    var head := [a[..m]];
    assert RunLength(s) == m by {
      assert s == a + ([c] + b);
      RunLengthExtend(a, [c] + b);
    }
    assert Split(s) == head + Split(a[m..] + [c] + b) by {
      SplitRunStep(s);
      assert s[..m] == a[..m];
      assert s[m..] == a[m..] + [c] + b;
    }
    assert Split(a) == head + Split(a[m..]) by {
      SplitRunStep(a);
    }
  }

  /** `Split` unfolded once at a token. */
  lemma SplitRunStep(s: string)
    requires s != [] && !IsWhitespace(s[0])
    ensures Split(s) == [s[..RunLength(s)]] + Split(s[RunLength(s)..])
  {
  }

  /** `SplitSep` when `a` is a single token. */
  lemma SplitSepToken(a: string, c: char, b: string)
    requires IsWhitespace(c) && a != [] && RunLength(a) == |a|
    ensures Split(a + [c] + b) == Split(a) + Split(b)
  {
    var s := a + [c] + b;
    RunLengthOfToken(a, [c] + b);
    assert s[..|a|] == a;
    assert s[|a|..] == [c] + b;
    assert ([c] + b)[1..] == b;
    assert a[..|a|] == a && a[|a|..] == [];
  }

  /** A run that ends inside `a` is not lengthened by what follows `a`. */
  lemma {:induction false} RunLengthExtend(a: string, t: string)
    requires RunLength(a) < |a|
    ensures RunLength(a + t) == RunLength(a)
    decreases |a|
  {
    if !IsWhitespace(a[0]) {
      assert (a + t)[1..] == a[1..] + t;
      RunLengthExtend(a[1..], t);
    }
  }

  /** Leading whitespace adds no token. */
  lemma {:induction false} SplitBlank(lead: string, s: string)
    requires Blank(lead)
    ensures Split(lead + s) == Split(s)
    decreases |lead|
  {
    if lead == [] {
      assert lead + s == s;
    } else {
      assert (lead + s)[1..] == lead[1..] + s;
      SplitBlank(lead[1..], s);
    }
  }

  /** Tokens, each followed by its own run of whitespace:
      `ts[0] gaps[0] ts[1] gaps[1] ...`. */
  function Layout(ts: seq<string>, gaps: seq<string>): string
    requires |gaps| == |ts|
  {
    if ts == [] then [] else ts[0] + gaps[0] + Layout(ts[1..], gaps[1..])
  }

  /** Tokens laid out with whitespace between them: every gap is blank and
      only the one after the last token may be empty. */
  predicate Separated(ts: seq<string>, gaps: seq<string>)
  {
    && |gaps| == |ts|
    && (forall i :: 0 <= i < |ts| ==> IsToken(ts[i]))
    && (forall i :: 0 <= i < |gaps| ==> Blank(gaps[i]))
    && (forall i :: 0 <= i < |gaps| - 1 ==> gaps[i] != [])
  }

  lemma SeparatedTail(ts: seq<string>, gaps: seq<string>)
    requires Separated(ts, gaps) && ts != []
    ensures Separated(ts[1..], gaps[1..])
  {
    forall i | 0 <= i < |gaps| - 2
      ensures gaps[1..][i] != []
    {
      assert gaps[1..][i] == gaps[i + 1];
    }
  }

  /** Round trip for any whitespace layout: tokens written with leading
      whitespace, any non-empty whitespace runs between them (tabs,
      newlines, several spaces) and any trailing whitespace split back to
      exactly those tokens, in order. */
  lemma {:induction false} SplitLayout(lead: string, ts: seq<string>, gaps: seq<string>)
    requires Blank(lead) && Separated(ts, gaps)
    ensures Split(lead + Layout(ts, gaps)) == ts
    decreases |ts|
  {
    if ts != [] {
      var rest := Layout(ts[1..], gaps[1..]);
      assert Split(rest) == ts[1..] by {
        SeparatedTail(ts, gaps);
        SplitLayout([], ts[1..], gaps[1..]);
        assert [] + rest == rest;
      }
      assert Split(Layout(ts, gaps)) == ts by {
        assert gaps[0] == [] ==> ts[1..] == [] && rest == [];
        SplitTokenGap(ts[0], gaps[0], rest, ts[1..]);
        assert ts == [ts[0]] + ts[1..];
      }
    }
    SplitBlank(lead, Layout(ts, gaps));
  }

  /** One step of `SplitLayout`: a token, its gap, then text whose tokens
      are known. */
  lemma SplitTokenGap(t: string, g: string, rest: string, tail: seq<string>)
    requires IsToken(t) && Blank(g)
    requires g == [] ==> rest == [] && tail == []
    requires Split(rest) == tail
    ensures Split(t + g + rest) == [t] + tail
  {
    SplitToken(t);
    if g == [] {
      assert t + g + rest == t;
    } else {
      assert t + g + rest == t + [g[0]] + (g[1..] + rest);
      SplitSep(t, g[0], g[1..] + rest);
      SplitBlank(g[1..], rest);
    }
  }
}
