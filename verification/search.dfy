/** The search form of the home page: the raw input is trimmed; a non-empty
    query navigates to the destination page, an empty one is refused. */
module Search {
  import opened Links

  /** The code points `String.prototype.trim` strips: the WhiteSpace and
      LineTerminator productions of ECMAScript (sections 12.2 and 12.3 of
      ECMA-262), where WhiteSpace includes every Unicode "Zs" space. */
  predicate IsWhiteSpace(c: char)
    // every such code point is a single, non-surrogate UTF-16 code unit, so
    // trimming code points and trimming code units agree
    ensures IsWhiteSpace(c) ==> (c as int) < 0xD800 || 0xE000 <= (c as int) < 0x1_0000
  {
    || c == '\t' || c == '\n' || c == '\U{000B}' || c == '\U{000C}' || c == '\r'
    || c == ' ' || c == '\U{00A0}' || c == '\U{1680}'
    || ('\U{2000}' <= c <= '\U{200A}')
    || c == '\U{2028}' || c == '\U{2029}' || c == '\U{202F}' || c == '\U{205F}'
    || c == '\U{3000}' || c == '\U{FEFF}'
  }

  /** Every character of `s` is white space (true of the empty string). */
  predicate AllWhite(s: string)
  {
    forall i | 0 <= i < |s| :: IsWhiteSpace(s[i])
  }

  /** Neither end of `t` is white space. */
  predicate IsTrimmed(t: string)
  {
    t == [] || (!IsWhiteSpace(t[0]) && !IsWhiteSpace(t[|t| - 1]))
  }

  /** `s` is `t` wrapped in the white-space runs `a` and `b`. */
  ghost predicate Pads(s: string, a: string, t: string, b: string)
  {
    s == a + t + b && AllWhite(a) && AllWhite(b)
  }

  /** `s` without its leading white space: a suffix of `s` whose cut-off
      prefix is all white space and which does not start with white space. */
  function TrimStart(s: string): (r: string)
    ensures |r| <= |s| && r == s[|s| - |r|..]
    ensures AllWhite(s[..|s| - |r|])
    ensures r == [] || !IsWhiteSpace(r[0])
  {
    if s != [] && IsWhiteSpace(s[0]) then TrimStart(s[1..]) else s
  }

  /** `s` without its trailing white space: a prefix of `s` whose cut-off
      suffix is all white space and which does not end with white space. */
  function TrimEnd(s: string): (r: string)
    ensures |r| <= |s| && r == s[..|r|]
    ensures AllWhite(s[|r|..])
    ensures r == [] || !IsWhiteSpace(r[|r| - 1])
  {
    if s != [] && IsWhiteSpace(s[|s| - 1]) then
      var init := s[..|s| - 1];
      var r := TrimEnd(init);
      assert r == s[..|r|];
      assert s[|r|..] == init[|r|..] + [s[|s| - 1]];
      r
    else s
  }

  /** `String.prototype.trim`. */
  function Trim(s: string): (r: string)
    ensures IsTrimmed(r)
    ensures |r| <= |s|
  {
    TrimEnd(TrimStart(s))
  }

  /** White space in front does not change where `TrimStart` stops. */
  lemma {:induction false} TrimStartSkipsWhite(a: string, x: string)
    requires AllWhite(a)
    ensures TrimStart(a + x) == TrimStart(x)
  {
    if a != [] {
      var ax := a + x;
      assert ax[0] == a[0] && ax[1..] == a[1..] + x;
      assert IsWhiteSpace(ax[0]);
      assert TrimStart(ax) == TrimStart(ax[1..]);
      assert AllWhite(a[1..]) by {
        forall i | 0 <= i < |a[1..]| ensures IsWhiteSpace(a[1..][i]) {
          assert a[1..][i] == a[i + 1];
        }
      }
      TrimStartSkipsWhite(a[1..], x);
    } else {
      assert a + x == x;
    }
  }

  /** White space behind does not change where `TrimEnd` stops. */
  lemma {:induction false} TrimEndSkipsWhite(x: string, b: string)
    requires AllWhite(b)
    ensures TrimEnd(x + b) == TrimEnd(x)
    decreases |b|
  {
    if b != [] {
      var xb := x + b;
      assert xb[|xb| - 1] == b[|b| - 1] && xb[..|xb| - 1] == x + b[..|b| - 1];
      TrimEndSkipsWhite(x, b[..|b| - 1]);
    } else {
      assert x + b == x;
    }
  }

  /** A suffix of `s` completes the prefix it leaves off. */
  lemma SuffixSplit(s: string, x: string)
    requires |x| <= |s| && x == s[|s| - |x|..]
    ensures s == s[..|s| - |x|] + x
  {
  }

  /** A prefix of `x` is completed by the suffix it leaves off. */
  lemma PrefixSplit(x: string, r: string)
    requires |r| <= |x| && r == x[..|r|]
    ensures x == r + x[|r|..]
  {
  }

  /** Putting `a` in front of `r + b` is wrapping `r` in `a` and `b`. */
  lemma WrapRegroup(a: string, r: string, b: string)
    ensures a + (r + b) == a + r + b
  {
  }

  /** `Trim` strips outer white space only: the input is the result wrapped
      in two white-space runs, returned here. */
  lemma TrimSplit(s: string) returns (a: string, b: string)
    ensures Pads(s, a, Trim(s), b)
  {
    var x := TrimStart(s);
    var r := TrimEnd(x);
    a, b := s[..|s| - |x|], x[|r|..];
    assert s == a + r + b by {
      SuffixSplit(s, x);
      PrefixSplit(x, r);
      WrapRegroup(a, r, b);
    }
    assert AllWhite(a) && AllWhite(b);
  }

  /** The same, stated as the existence of the two runs. */
  lemma TrimStrips(s: string)
    ensures exists a, b :: Pads(s, a, Trim(s), b)
  {
    var a, b := TrimSplit(s);
  }

  /** Two white-space runs in a row form one. */
  lemma AllWhiteAppend(a: string, b: string)
    requires AllWhite(a) && AllWhite(b)
    ensures AllWhite(a + b)
  {
    forall i | 0 <= i < |a + b|
      ensures IsWhiteSpace((a + b)[i])
    {
      if i < |a| { assert (a + b)[i] == a[i]; } else { assert (a + b)[i] == b[i - |a|]; }
    }
  }

  /** A string that does not start with white space is its own `TrimStart`. */
  lemma TrimStartUnpadded(x: string)
    requires x == [] || !IsWhiteSpace(x[0])
    ensures TrimStart(x) == x
  {
  }

  /** A string that does not end with white space is its own `TrimEnd`. */
  lemma TrimEndUnpadded(x: string)
    requires x == [] || !IsWhiteSpace(x[|x| - 1])
    ensures TrimEnd(x) == x
  {
  }

  /** Whatever way `s` splits into outer white space around an unpadded
      middle, that middle is `Trim(s)`. */
  lemma TrimUnique(s: string, a: string, t: string, b: string)
    requires Pads(s, a, t, b)
    requires IsTrimmed(t)
    ensures Trim(s) == t
  {
    var tb := t + b;
    assert s == a + tb;
    TrimStartSkipsWhite(a, tb);
    if t == [] {
      assert tb == b + [];
      TrimStartSkipsWhite(b, []);
      assert TrimStart(s) == [];
    } else {
      assert tb[0] == t[0];
      TrimStartUnpadded(tb);
      TrimEndSkipsWhite(t, b);
      TrimEndUnpadded(t);
      assert TrimStart(s) == tb;
    }
  }

  /** Trimming twice is trimming once. */
  lemma TrimIdempotent(s: string)
    ensures Trim(Trim(s)) == Trim(s)
  {
    TrimmedIsFixed(Trim(s));
  }

  /** A string with no white space at either end is its own trim. */
  lemma TrimmedIsFixed(t: string)
    requires IsTrimmed(t)
    ensures Trim(t) == t
  {
    TrimStartUnpadded(t);
    TrimEndUnpadded(t);
  }

  /** The trimmed input is empty exactly when the input is all white space. */
  lemma TrimEmptyIffWhite(s: string)
    ensures Trim(s) == [] <==> AllWhite(s)
  {
    if Trim(s) == [] {
      var a, b := TrimSplit(s);
      assert s == a + b;
      AllWhiteAppend(a, b);
    }
    if AllWhite(s) {
      assert s == s + [] + [];
      TrimUnique(s, s, [], []);
    }
  }

  /** The message of the alert shown for an empty query. */
  const EmptyQueryAlert: string := "Please enter a destination to search for."

  /** Result of submitting the search form. */
  datatype SearchOutcome = Navigate(url: string) | Rejected(message: string)

  /** `handleSearch`: trim the input; a non-empty query navigates to the
      destination page for it, an empty one is refused with an alert. */
  function HandleSearch(raw: string, encode: string -> string): (r: SearchOutcome)
    ensures r.Rejected? <==> AllWhite(raw)
    ensures r.Rejected? ==> r.message == EmptyQueryAlert
    ensures r.Navigate? ==> Trim(raw) != [] && IsTrimmed(Trim(raw))
    ensures r.Navigate? ==>
      && |r.url| == |DestinationPrefix| + |encode(Trim(raw))|
      && r.url[..|DestinationPrefix|] == DestinationPrefix
      && r.url[|DestinationPrefix|..] == encode(Trim(raw))
  {
    var query := Trim(raw);
    TrimEmptyIffWhite(raw);
    if |query| > 0 then Navigate(DestinationLink(query, encode)) else Rejected(EmptyQueryAlert)
  }

  /** The navigation target is determined by the input with its outer white
      space stripped, however that split is found. */
  lemma SearchNavigatesToStripped(raw: string, a: string, query: string, b: string, encode: string -> string)
    requires Pads(raw, a, query, b)
    requires IsTrimmed(query) && query != []
    ensures HandleSearch(raw, encode) == Navigate(DestinationLink(query, encode))
  {
    TrimUnique(raw, a, query, b);
  }

  /** Extra white space around a string does not survive trimming. */
  lemma TrimIgnoresPadding(raw: string, a: string, b: string)
    requires AllWhite(a) && AllWhite(b)
    ensures Trim(a + raw + b) == Trim(raw)
  {
    var a', b' := TrimSplit(raw);
    var t := Trim(raw);
    NestedPaddingRegroup(a, a', t, b', b);
    AllWhiteAppend(a, a');
    AllWhiteAppend(b', b);
    TrimUnique(a + raw + b, a + a', t, b' + b);
  }

  /** Padding around an already padded string is one wider padding. */
  lemma NestedPaddingRegroup(a: string, a': string, t: string, b': string, b: string)
    ensures a + (a' + t + b') + b == (a + a') + t + (b' + b)
  {
  }

  /** Extra white space around the input never changes the outcome. */
  lemma SearchIgnoresPadding(raw: string, a: string, b: string, encode: string -> string)
    requires AllWhite(a) && AllWhite(b)
    ensures HandleSearch(a + raw + b, encode) == HandleSearch(raw, encode)
  {
    TrimIgnoresPadding(raw, a, b);
  }

  /** The scan a `trim` implementation performs: advance past leading white
      space, then retreat past trailing white space; the query is
      `s[start..end]`. */
  method TrimBounds(s: string) returns (start: nat, end: nat)
    ensures start <= end <= |s|
    ensures AllWhite(s[..start]) && AllWhite(s[end..])
    ensures IsTrimmed(s[start..end])
    ensures s[start..end] == Trim(s)
  {
    start := 0;
    while start < |s| && IsWhiteSpace(s[start])
      invariant start <= |s|
      invariant AllWhite(s[..start])
    {
      start := start + 1;
    }
    end := |s|;
    while end > start && IsWhiteSpace(s[end - 1])
      invariant start <= end <= |s|
      invariant AllWhite(s[end..])
    {
      end := end - 1;
    }
    assert s == s[..start] + s[start..end] + s[end..];
    TrimUnique(s, s[..start], s[start..end], s[end..]);
  }
}
