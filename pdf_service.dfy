/** The paginator: turns the per-page item strings of a PDF, or the whole
    text of a plain-text file, into a `Book`. Text extraction, file reads
    and the random identifier are inputs. */
module Paginator {
  import opened Types

  const BlankPage := "[Blank Page]"
  const UnknownAuthor := "Unknown Author"
  const PageSize := 2000

  // ---------------------------------------------------------------------
  // Whitespace, as the regular-expression class \s and String.prototype.trim
  // see it: the ECMAScript WhiteSpace and LineTerminator code points. Both
  // use the same set. The general proofs rely only on the space being
  // whitespace; the worked examples rely on their letters not being
  // whitespace.
  // ---------------------------------------------------------------------

  predicate IsWs(c: char) {
    || c == '\t' || c == '\n' || c == '\U{B}' || c == '\U{C}' || c == '\r'
    || c == ' ' || c == '\U{A0}' || c == '\U{1680}'
    || ('\U{2000}' <= c <= '\U{200A}')
    || c == '\U{2028}' || c == '\U{2029}' || c == '\U{202F}' || c == '\U{205F}'
    || c == '\U{3000}' || c == '\U{FEFF}'
  }

  predicate AllWs(s: string) {
    forall i :: 0 <= i < |s| ==> IsWs(s[i])
  }

  /** No two adjacent whitespace characters. */
  predicate NoDoubleWs(s: string) {
    forall i :: 0 <= i < |s| - 1 ==> !(IsWs(s[i]) && IsWs(s[i + 1]))
  }

  /** The non-whitespace characters of `s`, in order: what a reader sees. */
  function NonWs(s: string): string {
    if s == [] then []
    else (if IsWs(s[0]) then [] else [s[0]]) + NonWs(s[1..])
  }

  /** The length of the longest whitespace prefix. */
  function LeadingWs(s: string): (n: nat)
    ensures n <= |s|
    ensures forall i :: 0 <= i < n ==> IsWs(s[i])
    ensures n < |s| ==> !IsWs(s[n])
  {
    if s == [] || !IsWs(s[0]) then 0 else LeadingWs(s[1..]) + 1
  }

  /** String.prototype.trimStart: drop whitespace from the front. */
  function TrimStart(s: string): (r: string)
    ensures |r| <= |s|
    decreases |s|
  {
    if s != [] && IsWs(s[0]) then TrimStart(s[1..]) else s
  }

  /** String.prototype.trimEnd: drop whitespace from the back. */
  function TrimEnd(s: string): (r: string)
    ensures |r| <= |s|
    decreases |s|
  {
    if s != [] && IsWs(s[|s| - 1]) then TrimEnd(s[..|s| - 1]) else s
  }

  /** String.prototype.trim: both ends. */
  function Trim(s: string): string {
    TrimEnd(TrimStart(s))
  }

  /** trimStart removes a whitespace prefix and stops at a visible
      character (or the end). */
  lemma {:induction false} TrimStartSpec(s: string)
    ensures var u := TrimStart(s);
      && s == s[..|s| - |u|] + u
      && AllWs(s[..|s| - |u|])
      && (u != [] ==> !IsWs(u[0]))
    decreases |s|
  {
    if s != [] && IsWs(s[0]) {
      TrimStartSpec(s[1..]);
      var u := TrimStart(s);
      assert s[1..][|s| - 1 - |u|..] == s[|s| - |u|..];
      var p := s[..|s| - |u|];
      forall i | 0 <= i < |p| ensures IsWs(p[i]) {
        if i > 0 { assert p[i] == s[1..][..|s| - 1 - |u|][i - 1]; }
      }
    }
  }

  /** trimEnd removes a whitespace suffix. */
  lemma {:induction false} TrimEndSpec(s: string)
    ensures var r := TrimEnd(s);
      s == r + s[|r|..] && AllWs(s[|r|..])
    decreases |s|
  {
    if s != [] && IsWs(s[|s| - 1]) {
      var t := s[..|s| - 1];
      TrimEndSpec(t);
      var r := TrimEnd(t);
      var q := s[|r|..];
      assert q == t[|r|..] + [s[|s| - 1]];
      forall i | 0 <= i < |q| ensures IsWs(q[i]) {
        if i < |q| - 1 { assert q[i] == t[|r|..][i]; }
      }
    }
  }

  /** trimEnd stops at a visible character (or at the start). */
  lemma {:induction false} TrimEndStops(s: string)
    ensures var r := TrimEnd(s);
      r != [] ==> !IsWs(r[|r| - 1])
    decreases |s|
  {
    if s != [] && IsWs(s[|s| - 1]) {
      TrimEndStops(s[..|s| - 1]);
    }
  }

  /** What trim cuts off: `s` is the whitespace trimStart removes, then
      the result, then the whitespace trimEnd removes. */
  lemma TrimParts(s: string)
    ensures var u := TrimStart(s);
      var r := Trim(s);
      && s == s[..|s| - |u|] + (r + u[|r|..])
      && AllWs(s[..|s| - |u|]) && AllWs(u[|r|..])
  {
    var u := TrimStart(s);
    TrimStartSpec(s);
    TrimEndSpec(u);
  }

  /** A non-empty trimmed string starts and ends with a visible character. */
  lemma TrimEnds(s: string)
    ensures var r := Trim(s);
      r != [] ==> !IsWs(r[0]) && !IsWs(r[|r| - 1])
  {
    var u := TrimStart(s);
    TrimStartSpec(s);
    TrimEndSpec(u);
    TrimEndStops(u);
    assert Trim(s) != [] ==> Trim(s)[0] == u[0];
  }

  /** Trim gives the empty string exactly when `s` is all whitespace. */
  lemma TrimEmptyIff(s: string)
    ensures Trim(s) == [] <==> AllWs(s)
  {
    var u := TrimStart(s);
    TrimParts(s);
    TrimEnds(s);
    PaddedEmptyIff(s[..|s| - |u|], Trim(s), u[|Trim(s)|..]);
  }

  /** Padded with whitespace, `r` gives an all-whitespace string exactly
      when it is empty, provided it does not start with whitespace. */
  lemma PaddedEmptyIff(p: string, r: string, q: string)
    requires AllWs(p) && AllWs(q)
    requires r != [] ==> !IsWs(r[0])
    ensures AllWs(p + (r + q)) <==> r == []
  {
    PaddingIsInvisible(p, r, q);
    NonWsEmptyIff(p + (r + q));
    NonWsEmptyIff(r);
  }

  /** `replace(/\s+/g, ' ')`: every maximal run of whitespace becomes one
      space. The result has no two adjacent whitespace characters, its only
      whitespace character is the space, and it starts with whitespace
      exactly when `s` does. */
  function CollapseWs(s: string): (r: string)
    ensures |r| <= |s|
    ensures r == [] <==> s == []
    ensures s != [] ==> (IsWs(r[0]) <==> IsWs(s[0]))
    ensures NoDoubleWs(r)
    ensures forall i :: 0 <= i < |r| && IsWs(r[i]) ==> r[i] == ' '
    decreases |s|
  {
    if s == [] then []
    else if IsWs(s[0]) then
      var rest := CollapseWs(s[LeadingWs(s)..]);
      assert rest != [] ==> !IsWs(rest[0]);
      " " + rest
    else
      [s[0]] + CollapseWs(s[1..])
  }

  /** `items.join(sep)`. */
  function Join(items: seq<string>, sep: string): string {
    if |items| == 0 then ""
    else if |items| == 1 then items[0]
    else items[0] + sep + Join(items[1..], sep)
  }

  /** The strings of `ss` one after another (`join('')`). */
  function ConcatAll(ss: seq<string>): string {
    if ss == [] then "" else ss[0] + ConcatAll(ss[1..])
  }

  // ---------------------------------------------------------------------
  // What normalisation keeps
  // ---------------------------------------------------------------------

  lemma {:induction false} NonWsAppend(a: string, b: string)
    ensures NonWs(a + b) == NonWs(a) + NonWs(b)
  {
    if a == [] {
      assert a + b == b;
    } else {
      assert (a + b)[1..] == a[1..] + b;
      NonWsAppend(a[1..], b);
    }
  }

  lemma {:induction false} NonWsEmptyIff(s: string)
    ensures NonWs(s) == [] <==> AllWs(s)
  {
    if s != [] {
      NonWsEmptyIff(s[1..]);
      assert AllWs(s) <==> IsWs(s[0]) && AllWs(s[1..]) by {
        if IsWs(s[0]) && AllWs(s[1..]) {
          forall i | 0 <= i < |s| ensures IsWs(s[i]) {
            if i > 0 { assert s[i] == s[1..][i - 1]; }
          }
        }
      }
    }
  }

  /** Collapsing whitespace keeps every visible character, in order. */
  lemma {:induction false} CollapseKeepsContent(s: string)
    ensures NonWs(CollapseWs(s)) == NonWs(s)
    decreases |s|
  {
    if s == [] {
    } else if IsWs(s[0]) {
      var n := LeadingWs(s);
      var rest := s[n..];
      CollapseKeepsContent(rest);
      assert s == s[..n] + rest;
      assert AllWs(s[..n]);
      NonWsAppend(s[..n], rest);
      NonWsEmptyIff(s[..n]);
      NonWsAppend(" ", CollapseWs(rest));
    } else {
      CollapseKeepsContent(s[1..]);
      NonWsAppend([s[0]], CollapseWs(s[1..]));
    }
  }

  /** Trimming keeps every visible character, in order. */
  lemma TrimKeepsContent(s: string)
    ensures NonWs(Trim(s)) == NonWs(s)
  {
    TrimParts(s);
    var u := TrimStart(s);
    PaddingIsInvisible(s[..|s| - |u|], Trim(s), u[|Trim(s)|..]);
  }

  /** Whitespace padding around `r` adds no visible character. */
  lemma PaddingIsInvisible(p: string, r: string, q: string)
    requires AllWs(p) && AllWs(q)
    ensures NonWs(p + (r + q)) == NonWs(r)
  {
    NonWsEmptyIff(p);
    NonWsEmptyIff(q);
    NonWsAppend(p, r + q);
    NonWsAppend(r, q);
  }

  /** The longest whitespace prefix is the only whitespace prefix that is
      followed by a non-whitespace character (or by nothing). */
  lemma LeadingWsUnique(s: string, m: nat)
    requires m <= |s| && (forall i :: 0 <= i < m ==> IsWs(s[i])) && (m < |s| ==> !IsWs(s[m]))
    ensures LeadingWs(s) == m
  {
  }

  /** trimStart skips exactly a whitespace prefix in front of a visible
      character (or of nothing). */
  lemma {:induction false} TrimStartSkips(p: string, t: string)
    requires AllWs(p)
    requires t != [] ==> !IsWs(t[0])
    ensures TrimStart(p + t) == t
    decreases |p|
  {
    if p == [] {
      assert p + t == t;
    } else {
      assert (p + t)[1..] == p[1..] + t;
      assert AllWs(p[1..]) by {
        forall i | 0 <= i < |p| - 1 ensures IsWs(p[1..][i]) { assert p[1..][i] == p[i + 1]; }
      }
      TrimStartSkips(p[1..], t);
    }
  }

  /** trimEnd skips exactly a whitespace suffix behind a visible character
      (or behind nothing). */
  lemma {:induction false} TrimEndSkips(t: string, q: string)
    requires AllWs(q)
    requires t != [] ==> !IsWs(t[|t| - 1])
    ensures TrimEnd(t + q) == t
    decreases |q|
  {
    if q == [] {
      assert t + q == t;
    } else {
      var q' := q[..|q| - 1];
      assert (t + q)[..|t + q| - 1] == t + q';
      assert AllWs(q') by {
        forall i | 0 <= i < |q'| ensures IsWs(q'[i]) { assert q'[i] == q[i]; }
      }
      TrimEndSkips(t, q');
    }
  }

  lemma AllWsAppend(a: string, b: string)
    ensures AllWs(a + b) <==> AllWs(a) && AllWs(b)
  {
    NonWsAppend(a, b);
    NonWsEmptyIff(a + b);
    NonWsEmptyIff(a);
    NonWsEmptyIff(b);
  }

  /** Trim removes exactly the whitespace padding: whenever `s` is a
      non-whitespace-bounded core between two runs of whitespace, Trim
      returns that core. */
  lemma TrimIsStrip(p: string, r: string, q: string)
    requires AllWs(p) && AllWs(q)
    requires r != [] ==> !IsWs(r[0]) && !IsWs(r[|r| - 1])
    ensures Trim(p + r + q) == r
  {
    assert p + r + q == p + (r + q);
    if r == [] {
      assert r + q == q;
      AllWsAppend(p, q);
      TrimEmptyIff(p + q);
    } else {
      assert (r + q)[0] == r[0];
      TrimStartSkips(p, r + q);
      TrimEndSkips(r, q);
    }
  }

  /** The text of one PDF page: items joined by a space, whitespace runs
      collapsed, then trimmed. */
  function NormalizePage(items: seq<string>): string {
    Trim(CollapseWs(Join(items, " ")))
  }

  /** The middle part of a collapsed string is collapsed too. */
  lemma NoDoubleWsInner(p: string, r: string, q: string)
    requires NoDoubleWs(p + (r + q))
    requires forall i :: 0 <= i < |p + (r + q)| && IsWs((p + (r + q))[i]) ==> (p + (r + q))[i] == ' '
    ensures NoDoubleWs(r)
    ensures forall i :: 0 <= i < |r| && IsWs(r[i]) ==> r[i] == ' '
  {
    var c := p + (r + q);
    assert forall i :: 0 <= i < |r| ==> r[i] == c[|p| + i];
  }

  /** A normalised page has no whitespace at either end, no two adjacent
      whitespace characters, and no whitespace other than the space. */
  lemma NormalizedShape(items: seq<string>)
    ensures var r := NormalizePage(items);
      && (r != [] ==> !IsWs(r[0]) && !IsWs(r[|r| - 1]))
      && NoDoubleWs(r)
      && forall i :: 0 <= i < |r| && IsWs(r[i]) ==> r[i] == ' '
  {
    TrimCollapsed(CollapseWs(Join(items, " ")));
  }

  /** Trimming collapsed text gives collapsed text bounded by visible
      characters. */
  lemma TrimCollapsed(c: string)
    requires NoDoubleWs(c)
    requires forall i :: 0 <= i < |c| && IsWs(c[i]) ==> c[i] == ' '
    ensures var r := Trim(c);
      && (r != [] ==> !IsWs(r[0]) && !IsWs(r[|r| - 1]))
      && NoDoubleWs(r)
      && forall i :: 0 <= i < |r| && IsWs(r[i]) ==> r[i] == ' '
  {
    var u := TrimStart(c);
    TrimParts(c);
    TrimEnds(c);
    NoDoubleWsInner(c[..|c| - |u|], Trim(c), u[|Trim(c)|..]);
  }

  lemma {:induction false} JoinKeepsContent(items: seq<string>)
    ensures NonWs(Join(items, " ")) == NonWs(ConcatAll(items))
  {
    if |items| == 1 {
      assert items[1..] == [];
      assert ConcatAll(items) == items[0] + "" == items[0];
    } else if |items| > 1 {
      JoinKeepsContent(items[1..]);
      NonWsAppend(items[0] + " ", Join(items[1..], " "));
      NonWsAppend(items[0], " ");
      NonWsAppend(items[0], ConcatAll(items[1..]));
      assert NonWs(" ") == [];
    }
  }

  /** Text that is already collapsed is left alone. */
  lemma {:induction false} CollapseFixesNormal(s: string)
    requires NoDoubleWs(s)
    requires forall i :: 0 <= i < |s| && IsWs(s[i]) ==> s[i] == ' '
    ensures CollapseWs(s) == s
    decreases |s|
  {
    if s != [] {
      var t := s[1..];
      assert forall i :: 0 <= i < |t| ==> t[i] == s[i + 1];
      assert NoDoubleWs(t) by {
        forall i | 0 <= i < |t| - 1 ensures !(IsWs(t[i]) && IsWs(t[i + 1])) {
          assert t[i + 1] == s[i + 2];
        }
      }
      CollapseFixesNormal(t);
      if IsWs(s[0]) {
        LeadingWsUnique(s, 1);
        assert s == [' '] + t;
      } else {
        assert s == [s[0]] + t;
      }
    }
  }

  /** Collapsing twice is collapsing once. */
  lemma CollapseIdempotent(s: string)
    ensures CollapseWs(CollapseWs(s)) == CollapseWs(s)
  {
    CollapseFixesNormal(CollapseWs(s));
  }

  /** Empty, or ending with a visible character. */
  predicate EndsVisible(a: string) {
    a != [] ==> !IsWs(a[|a| - 1])
  }

  /** A cut right after a visible character splits no whitespace run, so
      collapsing works on the two sides separately. */
  lemma {:induction false} CollapseSplitsAtVisible(a: string, t: string)
    requires EndsVisible(a)
    ensures CollapseWs(a + t) == CollapseWs(a) + CollapseWs(t)
    decreases |a|, 1
  {
    if a == [] {
      assert a + t == t;
    } else if !IsWs(a[0]) {
      SplitAfterVisibleHead(a, t);
    } else {
      SplitAfterLeadingRun(a, t);
    }
  }

  /** The case of `CollapseSplitsAtVisible` where `a` starts visibly. */
  lemma {:induction false} SplitAfterVisibleHead(a: string, t: string)
    requires a != [] && !IsWs(a[0]) && EndsVisible(a)
    ensures CollapseWs(a + t) == CollapseWs(a) + CollapseWs(t)
    decreases |a|, 0
  {
    assert (a + t)[1..] == a[1..] + t;
    assert EndsVisible(a[1..]) by {
      if a[1..] != [] { assert a[1..][|a| - 2] == a[|a| - 1]; }
    }
    CollapseSplitsAtVisible(a[1..], t);
    AppendAssoc([a[0]], CollapseWs(a[1..]), CollapseWs(t));
  }

  /** The case of `CollapseSplitsAtVisible` where `a` starts with a run. */
  lemma {:induction false} SplitAfterLeadingRun(a: string, t: string)
    requires a != [] && IsWs(a[0]) && EndsVisible(a)
    ensures CollapseWs(a + t) == CollapseWs(a) + CollapseWs(t)
    decreases |a|, 0
  {
    var n := LeadingWs(a);
    CollapseLeadingRun(a, t);
    CollapseSplitsAtVisible(a[n..], t);
    AppendAssoc(" ", CollapseWs(a[n..]), CollapseWs(t));
  }

  lemma AppendAssoc(x: string, y: string, z: string)
    ensures x + (y + z) == (x + y) + z
  {
  }

  /** A leading whitespace run of `a` ends inside `a` when `a` ends
      visibly, so it becomes the same single space with or without `t`. */
  lemma CollapseLeadingRun(a: string, t: string)
    requires a != [] && IsWs(a[0]) && EndsVisible(a)
    ensures var n := LeadingWs(a);
      && 0 < n < |a|
      && EndsVisible(a[n..])
      && CollapseWs(a) == " " + CollapseWs(a[n..])
      && CollapseWs(a + t) == " " + CollapseWs(a[n..] + t)
  {
    var n := LeadingWs(a);
    LeadingWsAppend(a, t);
    assert (a + t)[n..] == a[n..] + t;
    assert a[n..][|a| - n - 1] == a[|a| - 1];
  }

  /** The whitespace prefix of `a` is not lengthened by what follows a
      visible last character. */
  lemma LeadingWsAppend(a: string, t: string)
    requires a != [] && EndsVisible(a)
    ensures LeadingWs(a + t) == LeadingWs(a) < |a|
  {
    assert forall i :: 0 <= i < |a| ==> (a + t)[i] == a[i];
    LeadingWsUnique(a + t, LeadingWs(a));
  }

  /** A whole whitespace run in front of a visible character (or of
      nothing) becomes exactly one space. */
  lemma CollapseRun(w: string, b: string)
    requires w != [] && AllWs(w)
    requires b != [] ==> !IsWs(b[0])
    ensures CollapseWs(w + b) == " " + CollapseWs(b)
  {
    assert forall i :: 0 <= i < |w| ==> (w + b)[i] == w[i];
    LeadingWsUnique(w + b, |w|);
    assert (w + b)[|w|..] == b;
  }

  /** Every maximal whitespace run becomes exactly one space: a run `w`
      between a visible character (or the start) and a visible character
      (or the end) is replaced by a single space, and the text on either
      side is collapsed on its own. */
  lemma CollapseOneSpace(a: string, w: string, b: string)
    requires EndsVisible(a)
    requires w != [] && AllWs(w)
    requires b != [] ==> !IsWs(b[0])
    ensures CollapseWs(a + w + b) == CollapseWs(a) + " " + CollapseWs(b)
  {
    AppendAssoc(a, w, b);
    CollapseSplitsAtVisible(a, w + b);
    CollapseRun(w, b);
    AppendAssoc(CollapseWs(a), " ", CollapseWs(b));
  }

  /** A non-empty string without whitespace. */
  predicate IsWord(s: string) {
    s != [] && forall i :: 0 <= i < |s| ==> !IsWs(s[i])
  }

  /** Text without whitespace is left alone by collapsing. */
  lemma {:induction false} CollapseKeepsWord(s: string)
    requires forall i :: 0 <= i < |s| ==> !IsWs(s[i])
    ensures CollapseWs(s) == s
    decreases |s|
  {
    if s != [] {
      assert forall i :: 0 <= i < |s| - 1 ==> s[1..][i] == s[i + 1];
      CollapseKeepsWord(s[1..]);
      assert s == [s[0]] + s[1..];
    }
  }

  /** Words joined by a space start and end with a visible character. */
  lemma {:induction false} JoinWordsEnds(items: seq<string>)
    requires |items| >= 1
    requires forall k :: 0 <= k < |items| ==> IsWord(items[k])
    ensures var j := Join(items, " ");
      j != [] && !IsWs(j[0]) && !IsWs(j[|j| - 1])
    decreases |items|
  {
    if |items| > 1 {
      var rest := items[1..];
      assert forall k :: 0 <= k < |rest| ==> rest[k] == items[k + 1];
      JoinWordsEnds(rest);
      var j := Join(items, " ");
      var jr := Join(rest, " ");
      assert j == items[0] + " " + jr;
      assert j[0] == items[0][0];
      assert j[|j| - 1] == jr[|jr| - 1];
    }
  }

  /** Words joined by a space are collapsed already. */
  lemma {:induction false} CollapseKeepsSpacedWords(items: seq<string>)
    requires forall k :: 0 <= k < |items| ==> IsWord(items[k])
    ensures CollapseWs(Join(items, " ")) == Join(items, " ")
    decreases |items|
  {
    if |items| == 1 {
      CollapseKeepsWord(items[0]);
    } else if |items| > 1 {
      var rest := items[1..];
      assert forall k :: 0 <= k < |rest| ==> rest[k] == items[k + 1];
      var jr := Join(rest, " ");
      JoinWordsEnds(rest);
      CollapseKeepsSpacedWords(rest);
      CollapseKeepsWord(items[0]);
      assert AllWs(" ");
      CollapseOneSpace(items[0], " ", jr);
    }
  }

  /** Items that are words stay separated by exactly one space: the page
      is the items joined by single spaces, with nothing dropped. */
  lemma NormalizeSpacedWords(items: seq<string>)
    requires forall k :: 0 <= k < |items| ==> IsWord(items[k])
    ensures NormalizePage(items) == Join(items, " ")
  {
    var j := Join(items, " ");
    CollapseKeepsSpacedWords(items);
    if |items| >= 1 {
      JoinWordsEnds(items);
    }
    TrimIsStrip("", j, "");
    assert "" + j + "" == j;
  }

  /** Normalising a page that is already normalised changes nothing. */
  lemma NormalizeIdempotent(items: seq<string>)
    ensures NormalizePage([NormalizePage(items)]) == NormalizePage(items)
  {
    var r := NormalizePage(items);
    NormalizedShape(items);
    assert Join([r], " ") == r;
    CollapseFixesNormal(r);
    TrimIsStrip("", r, "");
    assert "" + r + "" == r;
  }

  /** Normalisation drops whitespace and nothing else: the visible
      characters of the page are those of its items, in order. */
  lemma NormalizeKeepsContent(items: seq<string>)
    ensures NonWs(NormalizePage(items)) == NonWs(ConcatAll(items))
  {
    var j := Join(items, " ");
    JoinKeepsContent(items);
    CollapseKeepsContent(j);
    TrimKeepsContent(CollapseWs(j));
  }

  /** A page normalises to the empty string exactly when its items hold
      nothing but whitespace. */
  lemma NormalizeEmptyIff(items: seq<string>)
    ensures NormalizePage(items) == "" <==> AllWs(ConcatAll(items))
  {
    var j := Join(items, " ");
    var c := CollapseWs(j);
    JoinKeepsContent(items);
    CollapseKeepsContent(j);
    TrimEmptyIff(c);
    NonWsEmptyIff(c);
    NonWsEmptyIff(ConcatAll(items));
  }

  // ---------------------------------------------------------------------
  // PDF books
  // ---------------------------------------------------------------------

  /** `text || "[Blank Page]"`: a page never ends up with the empty string. */
  function PdfPageText(items: seq<string>): (r: string)
    ensures r != ""
  {
    var text := NormalizePage(items);
    if text == "" then BlankPage else text
  }

  /** A PDF page shows the sentinel exactly when its items are all
      whitespace (or when the page itself reads "[Blank Page]"); any other
      page shows its normalised text unchanged. */
  lemma PdfPageTextSpec(items: seq<string>)
    ensures PdfPageText(items) == BlankPage
        <==> AllWs(ConcatAll(items)) || NormalizePage(items) == BlankPage
    ensures !AllWs(ConcatAll(items)) ==> PdfPageText(items) == NormalizePage(items)
  {
    NormalizeEmptyIff(items);
  }

  function PdfPages(extracted: seq<seq<string>>): seq<BookPage> {
    seq(|extracted|, k requires 0 <= k < |extracted| => BookPage(k + 1, PdfPageText(extracted[k])))
  }

  /** The book `parsePdf` builds, `extracted` holding the items of every page. */
  function PdfBook(extracted: seq<seq<string>>, fileName: string, id: string): Book {
    Book(id, RemoveFirst(fileName, ".pdf"), UnknownAuthor, PdfPages(extracted), |extracted|, Pdf)
  }

  /** One page per extracted page, numbered from 1, none empty, each
      normalised from its own items. */
  lemma PdfBookShape(extracted: seq<seq<string>>, fileName: string, id: string)
    ensures var b := PdfBook(extracted, fileName, id);
      && WellFormed(b)
      && b.totalPages == |extracted|
      && b.author == UnknownAuthor && b.format == Pdf
      && forall k :: 0 <= k < |extracted| ==>
           b.pages[k].text != "" && b.pages[k].text == PdfPageText(extracted[k])
  {
  }

  /** `parsePdf` with the page items already extracted: the page loop. */
  method ParsePdf(extracted: seq<seq<string>>, fileName: string, id: string) returns (book: Book)
    ensures book == PdfBook(extracted, fileName, id)
  {
    var totalPages := |extracted|;
    var pages: seq<BookPage> := [];
    var i := 1;
    while i <= totalPages
      invariant 1 <= i <= totalPages + 1
      invariant |pages| == i - 1
      invariant forall k :: 0 <= k < i - 1 ==> pages[k] == PdfPages(extracted)[k]
    {
      var text := NormalizePage(extracted[i - 1]);
      pages := pages + [BookPage(i, if text == "" then BlankPage else text)];
      i := i + 1;
    }
    assert pages == PdfPages(extracted);
    book := Book(id, RemoveFirst(fileName, ".pdf"), UnknownAuthor, pages, totalPages, Pdf);
  }

  // ---------------------------------------------------------------------
  // Plain-text books
  // ---------------------------------------------------------------------

  /** `text.match(/[\s\S]{1,n}/g) || []`: greedy chunks of at most `n`
      characters; no match (the empty text) gives no chunks. */
  function Chunks(t: string, n: nat): seq<string>
    requires n > 0
    decreases |t|
  {
    if |t| == 0 then []
    else if |t| <= n then [t]
    else [t[..n]] + Chunks(t[n..], n)
  }

  /** Every piece but the last has exactly `n` characters; the last has 1 to `n`. */
  ghost predicate IsChunking(cs: seq<string>, n: nat) {
    && (forall k :: 0 <= k < |cs| - 1 ==> |cs[k]| == n)
    && (|cs| > 0 ==> 1 <= |cs[|cs| - 1]| <= n)
  }

  /** The chunks put back together are the text. */
  lemma {:induction false} ChunksConcat(t: string, n: nat)
    requires n > 0
    ensures ConcatAll(Chunks(t, n)) == t
    decreases |t|
  {
    if |t| > n {
      ChunksConcat(t[n..], n);
      assert t == t[..n] + t[n..];
    } else if |t| > 0 {
      assert ConcatAll([t]) == t + ConcatAll([]);
    }
  }

  lemma {:induction false} ChunksShape(t: string, n: nat)
    requires n > 0
    ensures IsChunking(Chunks(t, n), n)
    decreases |t|
  {
    if |t| > n {
      ChunksShape(t[n..], n);
      var rest := Chunks(t[n..], n);
      assert Chunks(t, n) == [t[..n]] + rest;
      assert rest != [] by { assert |t[n..]| > 0; }
    }
  }

  /** There are ceil(|t| / n) chunks: the least count whose `n`-sized
      pieces can hold the whole text. */
  lemma {:induction false} ChunksCount(t: string, n: nat)
    requires n > 0
    ensures var c := |Chunks(t, n)|;
      (t == [] ==> c == 0) && (t != [] ==> (c - 1) * n < |t| <= c * n)
    decreases |t|
  {
    if |t| > n {
      ChunksCount(t[n..], n);
      var c := |Chunks(t[n..], n)|;
      assert (c + 1) * n == c * n + n;
      assert (c - 1) * n == c * n - n;
    }
  }

  /** For the page size in use, that count is (|t| + 1999) / 2000. */
  lemma PageCount(t: string)
    ensures |Chunks(t, PageSize)| == (|t| + PageSize - 1) / PageSize
  {
    ChunksCount(t, PageSize);
  }

  /** Greedy chunking is the only way to cut `t` into pieces of that shape. */
  lemma {:induction false} ChunkingUnique(t: string, n: nat, cs: seq<string>)
    requires n > 0
    requires IsChunking(cs, n) && ConcatAll(cs) == t
    ensures cs == Chunks(t, n)
    decreases |cs|
  {
    if |cs| == 1 {
      assert cs[1..] == [];
      assert t == cs[0] + "" == cs[0];
      assert 1 <= |t| <= n;
      assert cs == [t];
    } else if |cs| > 1 {
      var rest := cs[1..];
      assert IsChunking(rest, n) by {
        forall k | 0 <= k < |rest| - 1 ensures |rest[k]| == n { assert rest[k] == cs[k + 1]; }
      }
      ChunkingUnique(ConcatAll(rest), n, rest);
      assert rest != [];
      assert t == cs[0] + ConcatAll(rest);
      assert |t| > n;
      assert t[..n] == cs[0] && t[n..] == ConcatAll(rest);
    }
  }

  function TextPages(chunks: seq<string>): seq<BookPage> {
    seq(|chunks|, k requires 0 <= k < |chunks| => BookPage(k + 1, Trim(chunks[k])))
  }

  /** The book `parseTextFile` builds from the file's text. */
  function TextBook(text: string, fileName: string, id: string): Book {
    var pages := TextPages(Chunks(text, PageSize));
    Book(id, RemoveFirst(fileName, ".txt"), UnknownAuthor, pages, |pages|, Text)
  }

  /** ceil(|text| / 2000) pages, numbered from 1, each its chunk trimmed;
      a whitespace-only chunk gives an empty page (no sentinel here), and
      the empty text gives a book without pages. */
  lemma TextBookShape(text: string, fileName: string, id: string)
    ensures var b := TextBook(text, fileName, id);
      var cs := Chunks(text, PageSize);
      && WellFormed(b)
      && b.totalPages == (|text| + PageSize - 1) / PageSize
      && (b.totalPages == 0 <==> text == "")
      && b.author == UnknownAuthor && b.format == Text
      && forall k :: 0 <= k < b.totalPages ==>
           && b.pages[k].text == Trim(cs[k])
           && (b.pages[k].text == "" <==> AllWs(cs[k]))
  {
    PageCount(text);
    var cs := Chunks(text, PageSize);
    forall k | 0 <= k < |cs| ensures Trim(cs[k]) == "" <==> AllWs(cs[k]) {
      TrimEmptyIff(cs[k]);
    }
  }

  /** The worked example: 4500 characters give chunks of 2000, 2000 and 500. */
  lemma TextExample4500(text: string)
    requires |text| == 4500
    ensures var cs := Chunks(text, PageSize);
      |cs| == 3 && |cs[0]| == 2000 && |cs[1]| == 2000 && |cs[2]| == 500
  {
    var t1 := text[2000..];
    var t2 := t1[2000..];
    assert Chunks(t2, PageSize) == [t2];
    assert Chunks(t1, PageSize) == [t1[..2000]] + [t2];
    assert Chunks(text, PageSize) == [text[..2000]] + ([t1[..2000]] + [t2]);
  }

  /** `parseTextFile` with the file's text already read: the chunk loop. */
  method ParseTextFile(text: string, fileName: string, id: string) returns (book: Book)
    ensures book == TextBook(text, fileName, id)
  {
    var rawPages := Chunks(text, PageSize);
    var pages: seq<BookPage> := [];
    var index := 0;
    while index < |rawPages|
      invariant 0 <= index <= |rawPages|
      invariant |pages| == index
      invariant forall k :: 0 <= k < index ==> pages[k] == BookPage(k + 1, Trim(rawPages[k]))
    {
      pages := pages + [BookPage(index + 1, Trim(rawPages[index]))];
      index := index + 1;
    }
    assert pages == TextPages(rawPages);
    book := Book(id, RemoveFirst(fileName, ".txt"), UnknownAuthor, pages, |pages|, Text);
  }

  // ---------------------------------------------------------------------
  // Titles
  // ---------------------------------------------------------------------

  /** `s.replace(pat, '')` with a string pattern: only the first occurrence goes. */
  function RemoveFirst(s: string, pat: string): string
    decreases |s|
  {
    if |s| < |pat| then s
    else if s[..|pat|] == pat then s[|pat|..]
    else [s[0]] + RemoveFirst(s[1..], pat)
  }

  ghost predicate OccursAt(s: string, pat: string, k: nat) {
    k + |pat| <= |s| && s[k..k + |pat|] == pat
  }

  /** An occurrence at `j + 1` in `s` is an occurrence at `j` in the tail. */
  lemma OccursShift(s: string, pat: string, j: nat)
    requires s != []
    ensures OccursAt(s, pat, j + 1) <==> OccursAt(s[1..], pat, j)
  {
    if j + 1 + |pat| <= |s| {
      assert s[1..][j..j + |pat|] == s[j + 1..j + 1 + |pat|];
    }
  }

  /** Cutting `[m, m + |pat|)` out of `s` keeps the head character in front
      of the same cut in the tail. */
  lemma CutShift(s: string, m: nat, pat: string)
    requires 0 < m && m + |pat| <= |s|
    ensures s[..m] + s[m + |pat|..] == [s[0]] + (s[1..][..m - 1] + s[1..][m - 1 + |pat|..])
  {
    assert s[..m] == [s[0]] + s[1..][..m - 1];
    assert s[m + |pat|..] == s[1..][m - 1 + |pat|..];
  }

  /** With the first occurrence of `pat` at `k`, the title is `s` with
      exactly those characters cut out. */
  lemma {:induction false} RemoveFirstCutsFirst(s: string, pat: string, k: nat)
    requires OccursAt(s, pat, k)
    requires forall j: nat :: j < k ==> !OccursAt(s, pat, j)
    ensures RemoveFirst(s, pat) == s[..k] + s[k + |pat|..]
    decreases k
  {
    if k > 0 {
      assert !OccursAt(s, pat, 0);
      var t := s[1..];
      OccursShift(s, pat, k - 1);
      forall j: nat | j < k - 1 ensures !OccursAt(t, pat, j) {
        OccursShift(s, pat, j);
      }
      RemoveFirstCutsFirst(t, pat, k - 1);
      CutShift(s, k, pat);
    }
  }

  /** Without an occurrence the title is the whole name. */
  lemma {:induction false} RemoveFirstAbsent(s: string, pat: string)
    requires forall j: nat :: !OccursAt(s, pat, j)
    ensures RemoveFirst(s, pat) == s
    decreases |s|
  {
    if |s| >= |pat| {
      assert !OccursAt(s, pat, 0);
      var t := s[1..];
      forall j: nat ensures !OccursAt(t, pat, j) {
        OccursShift(s, pat, j);
      }
      RemoveFirstAbsent(t, pat);
      assert s == [s[0]] + t;
    }
  }

  // ---------------------------------------------------------------------
  // The worked PDF example
  // ---------------------------------------------------------------------

  lemma EmptyItemPage()
    ensures PdfPageText([""]) == BlankPage
  {
    assert Join([""], " ") == "";
  }

  /** Two words with no whitespace in them, separated by one space, are
      already in collapsed form. */
  lemma SpacedWordsNormal(a: string, b: string)
    requires forall i :: 0 <= i < |a| ==> !IsWs(a[i])
    requires forall i :: 0 <= i < |b| ==> !IsWs(b[i])
    ensures var w := a + " " + b;
      NoDoubleWs(w) && forall i :: 0 <= i < |w| && IsWs(w[i]) ==> w[i] == ' '
  {
    var w := a + " " + b;
    assert forall i :: 0 <= i < |a| ==> w[i] == a[i];
    assert forall i :: |a| < i < |w| ==> w[i] == b[i - |a| - 1];
  }

  lemma HelloWorldIsCollapsed()
    ensures CollapseWs("Hello world") == "Hello world"
    ensures !IsWs('H') && !IsWs('d')
  {
    var hello, world := "Hello", "world";
    assert forall i :: 0 <= i < |hello| ==> !IsWs(hello[i]);
    assert forall i :: 0 <= i < |world| ==> !IsWs(world[i]);
    SpacedWordsNormal(hello, world);
    assert hello + " " + world == "Hello world";
    CollapseFixesNormal("Hello world");
  }

  lemma HelloWorldPage()
    ensures PdfPageText(["Hello", "world"]) == "Hello world"
  {
    var hw := "Hello world";
    assert Join(["Hello", "world"], " ") == hw by {
      assert Join(["world"], " ") == "world";
    }
    HelloWorldIsCollapsed();
    assert TrimStart(hw) == hw && TrimEnd(hw) == hw;
  }

  /** An empty first page and a "Hello world" second page give the
      sentinel page and the text page. */
  lemma PdfExample()
    ensures var ps := PdfPages([[""], ["Hello", "world"]]);
      |ps| == 2 && ps[0] == BookPage(1, BlankPage) && ps[1] == BookPage(2, "Hello world")
  {
    EmptyItemPage();
    HelloWorldPage();
    var e: seq<seq<string>> := [[""], ["Hello", "world"]];
    assert e[0] == [""] && e[1] == ["Hello", "world"];
  }
}
