/** Display names of catalog ids (`normalize_names`): every id loses the
    prefix that all ids of its catalog share, camel case is split into
    space-separated words, and surrounding whitespace is trimmed. */
module DisplayNames {

  // ---------------------------------------------------------------------
  // Characters (Python's str.isspace / str.isupper, restricted to ASCII)
  // ---------------------------------------------------------------------

  /** ASCII whitespace as str.isspace sees it: space, \t \n \v \f \r and the
      four separators \x1c..\x1f. */
  predicate IsSpace(c: char)
  {
    c == ' ' || ('\t' <= c <= '\r') || ('\U{1C}' <= c <= '\U{1F}')
  }

  predicate IsUpper(c: char)
  {
    'A' <= c <= 'Z'
  }

  /** The characters of s that are not whitespace, in order. */
  function Visible(s: string): string
  {
    if s == [] then [] else (if IsSpace(s[0]) then [] else [s[0]]) + Visible(s[1..])
  }

  lemma {:induction false} VisibleAppend(a: string, b: string)
    ensures Visible(a + b) == Visible(a) + Visible(b)
  {
    if a != [] {
      assert (a + b)[0] == a[0];
      assert (a + b)[1..] == a[1..] + b;
      VisibleAppend(a[1..], b);
    } else {
      assert a + b == b;
    }
  }

  lemma {:induction false} VisibleOfSpaces(s: string)
    requires forall i :: 0 <= i < |s| ==> IsSpace(s[i])
    ensures Visible(s) == []
  {
    if s != [] {
      VisibleOfSpaces(s[1..]);
    }
  }

  // ---------------------------------------------------------------------
  // str.strip()
  // ---------------------------------------------------------------------

  predicate AllSpace(s: string)
  {
    forall i :: 0 <= i < |s| ==> IsSpace(s[i])
  }

  /** s without its leading whitespace. */
  function TrimStart(s: string): (r: string)
    ensures |r| <= |s|
  {
    if s != [] && IsSpace(s[0]) then TrimStart(s[1..]) else s
  }

  /** s without its trailing whitespace. */
  function TrimEnd(s: string): (r: string)
    ensures |r| <= |s|
  {
    if s != [] && IsSpace(s[|s| - 1]) then TrimEnd(s[..|s| - 1]) else s
  }

  /** TrimStart cuts whitespace only, and all of it, from the front. */
  lemma {:induction false} TrimStartCuts(s: string)
    ensures var r := TrimStart(s);
      r == s[|s| - |r|..] && AllSpace(s[..|s| - |r|]) && (r == [] || !IsSpace(r[0]))
  {
    if s != [] && IsSpace(s[0]) {
      TrimStartCuts(s[1..]);
      var r := TrimStart(s);
      assert s[..|s| - |r|] == [s[0]] + s[1..][..|s| - 1 - |r|];
    }
  }

  /** TrimEnd cuts whitespace only, and all of it, from the back. */
  lemma {:induction false} TrimEndCuts(s: string)
    ensures var r := TrimEnd(s);
      r == s[..|r|] && AllSpace(s[|r|..]) && (r == [] || !IsSpace(r[|r| - 1]))
  {
    if s != [] && IsSpace(s[|s| - 1]) {
      var n := |s| - 1;
      TrimEndCuts(s[..n]);
      var r := TrimEnd(s);
      assert s[|r|..] == s[..n][|r|..] + [s[n]];
    }
  }

  predicate NoEdgeSpace(s: string)
  {
    s == [] || (!IsSpace(s[0]) && !IsSpace(s[|s| - 1]))
  }

  /** `s.strip()` */
  function Strip(s: string): (r: string)
    ensures |r| <= |s| && NoEdgeSpace(r)
  {
    var t := TrimStart(s);
    TrimStartCuts(s);
    TrimEndCuts(t);
    assert TrimEnd(t) != [] ==> TrimEnd(t)[0] == t[0];
    TrimEnd(t)
  }

  /** The stripped string neither starts nor ends with whitespace, and only
      whitespace was cut from either side. */
  lemma StripWellFormed(s: string)
    ensures NoEdgeSpace(Strip(s))
    ensures Visible(Strip(s)) == Visible(s)
  {
    var t := TrimStart(s);
    var r := TrimEnd(t);
    TrimStartCuts(s);
    TrimEndCuts(t);
    assert r != [] ==> r[0] == t[0];
    TrimStartKeepsVisible(s);
    TrimEndKeepsVisible(t);
  }

  lemma {:induction false} TrimStartKeepsVisible(s: string)
    ensures Visible(TrimStart(s)) == Visible(s)
  {
    if s != [] && IsSpace(s[0]) {
      TrimStartKeepsVisible(s[1..]);
    }
  }

  lemma {:induction false} TrimEndKeepsVisible(s: string)
    ensures Visible(TrimEnd(s)) == Visible(s)
  {
    if s != [] && IsSpace(s[|s| - 1]) {
      var n := |s| - 1;
      TrimEndKeepsVisible(s[..n]);
      assert s == s[..n] + [s[n]];
      VisibleAppend(s[..n], [s[n]]);
    }
  }

  // ---------------------------------------------------------------------
  // Camel case to words
  // ---------------------------------------------------------------------

  /** `"".join([" " + c if c.isupper() else c for c in s])` */
  function Spaced(s: string): (r: string)
    ensures |s| <= |r| <= 2 * |s|
  {
    if s == [] then []
    else (if IsUpper(s[0]) then [' ', s[0]] else [s[0]]) + Spaced(s[1..])
  }

  /** Spacing adds nothing but spaces. */
  lemma {:induction false} SpacedKeepsVisible(s: string)
    ensures Visible(Spaced(s)) == Visible(s)
  {
    if s != [] {
      var head := if IsUpper(s[0]) then [' ', s[0]] else [s[0]];
      SpacedKeepsVisible(s[1..]);
      assert s == [s[0]] + s[1..];
      VisibleAppend(head, Spaced(s[1..]));
      VisibleAppend([s[0]], s[1..]);
    }
  }

  /** Spacing puts a space before every upper-case letter. */
  lemma {:induction false} SpacedIsCamelSpaced(s: string)
    ensures CamelSpaced(Spaced(s)) && (Spaced(s) != [] ==> !IsUpper(Spaced(s)[0]))
  {
    if s != [] {
      var head := if IsUpper(s[0]) then [' ', s[0]] else [s[0]];
      var tail := Spaced(s[1..]);
      SpacedIsCamelSpaced(s[1..]);
      assert Spaced(s) == head + tail;
      assert forall k :: |head| <= k < |head + tail| ==> (head + tail)[k] == tail[k - |head|];
    }
  }

  /** Spacing puts a space before every upper-case letter and adds nothing
      but spaces. */
  lemma SpacedWellFormed(s: string)
    ensures var r := Spaced(s);
      CamelSpaced(r) && (r != [] ==> !IsUpper(r[0])) && Visible(r) == Visible(s)
  {
    SpacedKeepsVisible(s);
    SpacedIsCamelSpaced(s);
  }

  /** Undoes the camel-case join: drops each space that stands right before
      an upper-case letter. */
  function Unspace(r: string): string
  {
    if r == [] then []
    else if |r| >= 2 && r[0] == ' ' && IsUpper(r[1]) then [r[1]] + Unspace(r[2..])
    else [r[0]] + Unspace(r[1..])
  }

  /** Spacing inserts a space before each upper-case letter and nothing
      else: removing those spaces gives the input back. */
  lemma {:induction false} UnspaceSpaced(s: string)
    ensures Unspace(Spaced(s)) == s
  {
    if s != [] {
      var tail := Spaced(s[1..]);
      UnspaceSpaced(s[1..]);
      SpacedIsCamelSpaced(s[1..]);
      if IsUpper(s[0]) {
        assert Spaced(s) == [' ', s[0]] + tail;
        assert Spaced(s)[2..] == tail;
      } else {
        assert Spaced(s) == [s[0]] + tail;
        assert Spaced(s)[1..] == tail;
      }
      assert s == [s[0]] + s[1..];
    }
  }

  /** Every upper-case letter of s, save one in first position, follows a space. */
  predicate CamelSpaced(s: string)
  {
    forall k :: 0 < k < |s| && IsUpper(s[k]) ==> s[k - 1] == ' '
  }

  /** Strip cuts a slice out of s. */
  lemma StripIsSlice(s: string)
    ensures |s| - |TrimStart(s)| + |Strip(s)| <= |s|
    ensures forall k :: 0 <= k < |Strip(s)| ==> Strip(s)[k] == s[|s| - |TrimStart(s)| + k]
  {
    var t := TrimStart(s);
    var r := TrimEnd(t);
    TrimStartCuts(s);
    TrimEndCuts(t);
    assert r == Strip(s);
    forall k | 0 <= k < |r| ensures r[k] == s[|s| - |t| + k] {
      assert r[k] == t[k];
    }
  }

  /** Stripping keeps "every upper-case letter follows a space" for every
      letter that is not first. */
  lemma StripKeepsSpacedUpper(s: string)
    requires CamelSpaced(s) && (s != [] ==> !IsUpper(s[0]))
    ensures CamelSpaced(Strip(s))
  {
    StripIsSlice(s);
  }

  /** The display name of one id once the shared prefix is gone: lines 37 and 40. */
  function DisplayName(rest: string): (name: string)
    ensures NoEdgeSpace(name) && |name| <= 2 * |rest|
  {
    Strip(Spaced(Strip(rest)))
  }

  /** A display name is trimmed, splits camel case with spaces, and shows
      exactly the visible characters of the id it came from. */
  lemma DisplayNameWellFormed(rest: string)
    ensures NoEdgeSpace(DisplayName(rest)) && CamelSpaced(DisplayName(rest))
    ensures Visible(DisplayName(rest)) == Visible(rest)
  {
    StripWellFormed(rest);
    SpacedWellFormed(Strip(rest));
    StripWellFormed(Spaced(Strip(rest)));
    StripKeepsSpacedUpper(Spaced(Strip(rest)));
  }

  /** Python slicing `s[n:]` for n >= 0: empty once n runs past the end. */
  function Drop(s: string, n: nat): (r: string)
    ensures |r| == if n <= |s| then |s| - n else 0
  {
    if n <= |s| then s[n..] else []
  }

  // ---------------------------------------------------------------------
  // The shared prefix
  // ---------------------------------------------------------------------

  ghost predicate IsCommonPrefix(p: string, ids: seq<string>)
  {
    forall k :: 0 <= k < |ids| ==> p <= ids[k]
  }

  ghost predicate IsLongestCommonPrefix(p: string, ids: seq<string>)
  {
    IsCommonPrefix(p, ids) && forall q :: IsCommonPrefix(q, ids) ==> |q| <= |p|
  }

  /** What the inner while loop (lines 32-35) keeps of `a` when matched against `b`. */
  function PairPrefix(a: string, b: string): (r: string)
    ensures r <= a && r <= b
    ensures |r| == |a| || |r| == |b| || a[|r|] != b[|r|]
  {
    if a == [] || b == [] || a[0] != b[0] then []
    else [a[0]] + PairPrefix(a[1..], b[1..])
  }

  /** The outer for loop (lines 30-35) run from `acc` over `xs`. */
  function FoldPrefix(acc: string, xs: seq<string>): (r: string)
    ensures r <= acc
    decreases |xs|
  {
    if xs == [] then acc
    else
      var next := PairPrefix(acc, xs[0]);
      var r := FoldPrefix(next, xs[1..]);
      assert r == next[..|r|] && next == acc[..|next|];
      r
  }

  /** `common_prefix` after the loop of lines 29-35. */
  function SharedPrefix(ids: seq<string>): (p: string)
    requires |ids| > 0
    ensures IsCommonPrefix(p, ids)
  {
    FoldPrefixCommon(ids[0], ids);
    FoldPrefix(ids[0], ids)
  }

  /** A prefix of both strings is a prefix of what the inner loop keeps. */
  lemma PairPrefixMaximal(q: string, a: string, b: string)
    requires q <= a && q <= b
    ensures q <= PairPrefix(a, b)
  {
    var r := PairPrefix(a, b);
    assert forall i :: 0 <= i < |q| ==> a[i] == q[i] == b[i];
    assert q == a[..|q|] && r == a[..|r|];
  }

  lemma CommonPrefixTail(q: string, xs: seq<string>)
    requires xs != [] && IsCommonPrefix(q, xs)
    ensures q <= xs[0] && IsCommonPrefix(q, xs[1..])
  {
    forall k | 0 <= k < |xs| - 1 ensures q <= xs[1..][k] {
      assert xs[1..][k] == xs[k + 1];
    }
  }

  lemma {:induction false} FoldPrefixCommon(acc: string, xs: seq<string>)
    ensures FoldPrefix(acc, xs) <= acc
    ensures IsCommonPrefix(FoldPrefix(acc, xs), xs)
    decreases |xs|
  {
    if xs != [] {
      var next := PairPrefix(acc, xs[0]);
      FoldPrefixCommon(next, xs[1..]);
      var r := FoldPrefix(acc, xs);
      assert r == FoldPrefix(next, xs[1..]);
      assert r <= acc by {
        assert r == next[..|r|] && next == acc[..|next|];
      }
      forall k | 0 <= k < |xs| ensures r <= xs[k] {
        if k > 0 {
          assert xs[1..][k - 1] == xs[k];
        } else {
          assert r == next[..|r|] && next == xs[0][..|next|];
        }
      }
    }
  }

  lemma {:induction false} FoldPrefixMaximal(acc: string, xs: seq<string>, q: string)
    requires q <= acc && IsCommonPrefix(q, xs)
    ensures |q| <= |FoldPrefix(acc, xs)|
    decreases |xs|
  {
    if xs != [] {
      CommonPrefixTail(q, xs);
      PairPrefixMaximal(q, acc, xs[0]);
      FoldPrefixMaximal(PairPrefix(acc, xs[0]), xs[1..], q);
    }
  }

  /** The outer loop keeps a prefix of its start value that is common to all
      the strings it visits, and no longer such prefix exists. */
  lemma FoldPrefixLongest(acc: string, xs: seq<string>)
    ensures FoldPrefix(acc, xs) <= acc
    ensures IsCommonPrefix(FoldPrefix(acc, xs), xs)
    ensures forall q :: q <= acc && IsCommonPrefix(q, xs) ==> |q| <= |FoldPrefix(acc, xs)|
  {
    FoldPrefixCommon(acc, xs);
    forall q | q <= acc && IsCommonPrefix(q, xs) ensures |q| <= |FoldPrefix(acc, xs)| {
      FoldPrefixMaximal(acc, xs, q);
    }
  }

  /** The loop computes the longest prefix common to every id. */
  lemma SharedPrefixIsLongest(ids: seq<string>)
    requires |ids| > 0
    ensures IsLongestCommonPrefix(SharedPrefix(ids), ids)
  {
    FoldPrefixLongest(ids[0], ids);
  }

  /** There is only one longest common prefix. */
  lemma LongestCommonPrefixUnique(ids: seq<string>, p: string, q: string)
    requires |ids| > 0
    requires IsLongestCommonPrefix(p, ids) && IsLongestCommonPrefix(q, ids)
    ensures p == q
  {
    assert p <= ids[0] && q <= ids[0];
    assert |p| == |q|;
  }

  /** The shared prefix depends on the catalog's ids, not on their order. */
  lemma SharedPrefixOrderIrrelevant(ids: seq<string>, ids': seq<string>)
    requires |ids| > 0 && multiset(ids) == multiset(ids')
    ensures |ids'| > 0
    ensures SharedPrefix(ids) == SharedPrefix(ids')
  {
    assert |ids'| == |multiset(ids')| == |multiset(ids)| == |ids|;
    forall q ensures IsCommonPrefix(q, ids) <==> IsCommonPrefix(q, ids') {
      if IsCommonPrefix(q, ids) { CommonPrefixOfSameElements(q, ids, ids'); }
      if IsCommonPrefix(q, ids') { CommonPrefixOfSameElements(q, ids', ids); }
    }
    SharedPrefixIsLongest(ids);
    SharedPrefixIsLongest(ids');
    LongestCommonPrefixUnique(ids, SharedPrefix(ids), SharedPrefix(ids'));
  }

  lemma CommonPrefixOfSameElements(q: string, ids: seq<string>, ids': seq<string>)
    requires multiset(ids) == multiset(ids') && IsCommonPrefix(q, ids)
    ensures IsCommonPrefix(q, ids')
  {
    forall k | 0 <= k < |ids'| ensures q <= ids'[k] {
      assert ids'[k] in multiset(ids');
      assert ids'[k] in ids;
      var j :| 0 <= j < |ids| && ids[j] == ids'[k];
    }
  }

  // ---------------------------------------------------------------------
  // normalize_names
  // ---------------------------------------------------------------------

  /** The list normalize_names returns: name i depends on id i and the
      shared prefix alone. */
  function NormalizedNames(ids: seq<string>): (names: seq<string>)
    requires |ids| > 0
    ensures |names| == |ids|
  {
    NamesWithout(ids, |SharedPrefix(ids)|)
  }

  /** The display names of `ids` once their first n characters are gone. */
  function NamesWithout(ids: seq<string>, n: nat): (names: seq<string>)
    ensures |names| == |ids|
    ensures forall i :: 0 <= i < |ids| ==> names[i] == DisplayName(Drop(ids[i], n))
  {
    if ids == [] then []
    else
      var rest := NamesWithout(ids[1..], n);
      assert forall i :: 1 <= i < |ids| ==> ids[1..][i - 1] == ids[i];
      [DisplayName(Drop(ids[0], n))] + rest
  }

  /** The first i characters are shared and the (i+1)-st is not: PairPrefix
      keeps exactly those i characters. */
  lemma {:induction false} PairPrefixStopsAtMismatch(a: string, b: string, i: nat)
    requires i <= |a| && i <= |b| && a[..i] == b[..i]
    requires i == |a| || i == |b| || a[i] != b[i]
    ensures PairPrefix(a, b) == a[..i]
  {
    if i > 0 {
      assert a[0] == b[0] by { assert a[..i][0] == b[..i][0]; }
      assert a[1..][..i - 1] == a[..i][1..] && b[1..][..i - 1] == b[..i][1..];
      PairPrefixStopsAtMismatch(a[1..], b[1..], i - 1);
      assert a[..i] == [a[0]] + a[1..][..i - 1];
    }
  }

  /** Lines 32-34: the number of leading characters `prefix` and `name` share. */
  method MatchLength(prefix: string, name: string) returns (i: nat)
    ensures i <= |prefix| && prefix[..i] == PairPrefix(prefix, name)
  {
    i := 0;
    while i < |prefix| && i < |name| && prefix[i] == name[i]
      invariant i <= |prefix| && i <= |name|
      invariant prefix[..i] == name[..i]
    {
      assert prefix[..i + 1] == prefix[..i] + [prefix[i]] && name[..i + 1] == name[..i] + [name[i]];
      i := i + 1;
    }
    PairPrefixStopsAtMismatch(prefix, name, i);
  }

  /** Lines 29-35: shrink `common_prefix` against every id in turn. */
  method CommonPrefix(ids: seq<string>) returns (prefix: string)
    requires |ids| > 0
    ensures prefix == SharedPrefix(ids)
    ensures IsLongestCommonPrefix(prefix, ids)
  {
    prefix := ids[0];
    for k := 0 to |ids|
      invariant FoldPrefix(prefix, ids[k..]) == SharedPrefix(ids)
    {
      var name := ids[k];
      var i := MatchLength(prefix, name);
      assert ids[k..][0] == name && ids[k..][1..] == ids[k + 1..];
      prefix := prefix[..i];
    }
    SharedPrefixIsLongest(ids);
  }

  /** normalize_names (lines 27-43); the list is rewritten slot by slot. */
  method NormalizeNames(ids: seq<string>) returns (names: seq<string>)
    requires |ids| > 0
    ensures names == NormalizedNames(ids)
  {
    var prefix := CommonPrefix(ids);
    names := seq(|ids|, i requires 0 <= i < |ids| => Strip(Drop(ids[i], |prefix|)));
    for i := 0 to |names|
      invariant |names| == |ids|
      invariant forall k :: 0 <= k < i ==> names[k] == DisplayName(Drop(ids[k], |prefix|))
      invariant forall k :: i <= k < |names| ==> names[k] == Strip(Drop(ids[k], |prefix|))
    {
      var name := names[i];
      name := Strip(Spaced(name));
      assert name == DisplayName(Drop(ids[i], |prefix|));
      names := names[i := name];
    }
    assert NormalizedNames(ids) == NamesWithout(ids, |prefix|);
    assert names == NamesWithout(ids, |prefix|);
  }

  // ---------------------------------------------------------------------
  // Properties of the names
  // ---------------------------------------------------------------------

  /** Every name is trimmed, each upper-case letter past the first character
      follows a space, and the visible characters are exactly those of the id
      after the shared prefix. */
  lemma {:induction false} NamesWellFormed(ids: seq<string>, i: int)
    requires |ids| > 0 && 0 <= i < |ids|
    ensures var name := NormalizedNames(ids)[i];
      && NoEdgeSpace(name)
      && CamelSpaced(name)
      && SharedPrefix(ids) <= ids[i]
      && Visible(name) == Visible(ids[i][|SharedPrefix(ids)|..])
  {
    SharedPrefixIsLongest(ids);
    DisplayNameWellFormed(Drop(ids[i], |SharedPrefix(ids)|));
  }

  /** A catalog whose ids are all the same (in particular a single id) has
      only empty display names. */
  lemma IdenticalIdsGiveEmptyNames(ids: seq<string>)
    requires |ids| > 0
    requires forall k :: 0 <= k < |ids| ==> ids[k] == ids[0]
    ensures forall k :: 0 <= k < |ids| ==> NormalizedNames(ids)[k] == ""
  {
    SharedPrefixIsLongest(ids);
    assert IsCommonPrefix(ids[0], ids);
    assert |SharedPrefix(ids)| == |ids[0]|;
  }

  /** Rotating the catalog rotates the names. */
  lemma NamesFollowRotation(ids: seq<string>)
    requires |ids| > 0
    ensures var rotated := ids[1..] + [ids[0]];
      NormalizedNames(rotated) == NormalizedNames(ids)[1..] + [NormalizedNames(ids)[0]]
  {
    var rotated := ids[1..] + [ids[0]];
    assert ids == [ids[0]] + ids[1..];
    assert multiset(rotated) == multiset(ids);
    SharedPrefixOrderIrrelevant(ids, rotated);
  }
}
