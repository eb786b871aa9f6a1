/**
 * A hand-written scanner with the match semantics of the two regular
 * expressions that read Terraform's DOT output:
 *
 *   edge pattern         "([^"]+)"\s*->\s*"([^"]+)"
 *   declaration pattern  ^\s*"([^"]+)"\s*\[         (with re.MULTILINE)
 *
 * Each pattern is deterministic: `[^"]+` must stop at the next quote and
 * `\s*` must stop at the next non-space, so a pattern matches at a position
 * in at most one way. `EdgeAt`/`DeclAt` try one position; `EdgeScan` and
 * `DeclScan` are `finditer`: left to right, resuming after each match, so
 * matches never overlap. `EdgeAtExact` and `DeclAtExact` prove that the
 * scanner accepts exactly the texts the patterns describe.
 */
module DotScan {
  import opened Optional

  /** `\s` in a str pattern, which is Python's `str.isspace()`. */
  predicate IsSpace(c: char)
  {
    var n := c as int;
    n == 0x20 || 0x09 <= n <= 0x0D || 0x1C <= n <= 0x1F || n == 0x85 || n == 0xA0
    || n == 0x1680 || 0x2000 <= n <= 0x200A || n == 0x2028 || n == 0x2029
    || n == 0x202F || n == 0x205F || n == 0x3000
  }

  predicate AllSpace(t: string)
  {
    forall k :: 0 <= k < |t| ==> IsSpace(t[k])
  }

  /** What `[^"]+` matches. */
  predicate IsName(t: string)
  {
    |t| > 0 && forall k :: 0 <= k < |t| ==> t[k] != '"'
  }

  /** The text `"name"`. */
  function Quoted(name: string): string
  {
    "\"" + name + "\""
  }

  /** `t` is a whole match of the edge pattern, capturing `src` and `dst`. */
  ghost predicate IsEdgeText(t: string, src: string, dst: string)
  {
    IsName(src) && IsName(dst) &&
    exists w1, w2 :: AllSpace(w1) && AllSpace(w2) && t == Quoted(src) + w1 + "->" + w2 + Quoted(dst)
  }

  /** `t` is a whole match of the declaration pattern after `^`, capturing `name`. */
  ghost predicate IsDeclText(t: string, name: string)
  {
    IsName(name) &&
    exists w1, w2 :: AllSpace(w1) && AllSpace(w2) && t == w1 + Quoted(name) + w2 + "["
  }

  /** Where `^` matches under re.MULTILINE. */
  predicate LineStart(s: string, i: nat)
    requires i <= |s|
  {
    i == 0 || s[i - 1] == '\n'
  }

  /* ---------- one position ---------- */

  /** The end of the run of spaces starting at `i` (greedy `\s*`). */
  function SkipSpaces(s: string, i: nat): (j: nat)
    requires i <= |s|
    ensures i <= j <= |s|
    ensures AllSpace(s[i..j])
    ensures j == |s| || !IsSpace(s[j])
    decreases |s| - i
  {
    if i < |s| && IsSpace(s[i]) then SkipSpaces(s, i + 1) else i
  }

  /** The first quote at or after `i`, or `|s|` when there is none. */
  function NextQuote(s: string, i: nat): (j: nat)
    requires i <= |s|
    ensures i <= j <= |s|
    ensures forall k :: i <= k < j ==> s[k] != '"'
    ensures j == |s| || s[j] == '"'
    decreases |s| - i
  {
    if i < |s| && s[i] != '"' then NextQuote(s, i + 1) else i
  }

  datatype Capture = Capture(name: string, end: nat)

  /** `"([^"]+)"` at position `i`: the captured name and where the match ends. */
  function QuotedAt(s: string, i: nat): (r: Option<Capture>)
    requires i <= |s|
    ensures r.Some? ==> i < r.value.end <= |s|
  {
    if i < |s| && s[i] == '"' then
      var j := NextQuote(s, i + 1);
      if i + 1 < j < |s| then Some(Capture(s[i + 1..j], j + 1)) else None
    else None
  }

  datatype EdgeMatch = EdgeMatch(src: string, dst: string, end: nat)

  /** The edge pattern at position `i`. */
  function EdgeAt(s: string, i: nat): (r: Option<EdgeMatch>)
    requires i <= |s|
    ensures r.Some? ==> i < r.value.end <= |s|
  {
    match QuotedAt(s, i)
    case None => None
    case Some(a) =>
      var p := SkipSpaces(s, a.end);
      if p + 2 <= |s| && s[p] == '-' && s[p + 1] == '>' then
        match QuotedAt(s, SkipSpaces(s, p + 2))
        case None => None
        case Some(b) => Some(EdgeMatch(a.name, b.name, b.end))
      else None
  }

  /** The declaration pattern at position `i`, `^` included. */
  function DeclAt(s: string, i: nat): (r: Option<Capture>)
    requires i <= |s|
    ensures r.Some? ==> i < r.value.end <= |s|
  {
    if !LineStart(s, i) then None
    else
      match QuotedAt(s, SkipSpaces(s, i))
      case None => None
      case Some(a) =>
        var p := SkipSpaces(s, a.end);
        if p < |s| && s[p] == '[' then Some(Capture(a.name, p + 1)) else None
  }

  /* ---------- finditer ---------- */

  /** `[m.groups() for m in edge_pattern.finditer(s, i)]` */
  function EdgeScan(s: string, i: nat): (r: seq<(string, string)>)
    requires i <= |s|
    ensures forall k :: 0 <= k < |r| ==> IsName(r[k].0) && IsName(r[k].1)
    decreases |s| - i
  {
    if i == |s| then []
    else
      match EdgeAt(s, i)
      case Some(m) =>
        EdgeAtExact(s, i, m.end, m.src, m.dst);
        [(m.src, m.dst)] + EdgeScan(s, m.end)
      case None => EdgeScan(s, i + 1)
  }

  /** `[m.group(1) for m in node_pattern.finditer(s, i)]` */
  function DeclScan(s: string, i: nat): (r: seq<string>)
    requires i <= |s|
    ensures forall k :: 0 <= k < |r| ==> IsName(r[k])
    decreases |s| - i
  {
    if i == |s| then []
    else
      match DeclAt(s, i)
      case Some(m) =>
        DeclAtExact(s, i, m.end, m.name);
        [m.name] + DeclScan(s, m.end)
      case None => DeclScan(s, i + 1)
  }

  /** Every edge-pattern match in `s`, in order. */
  function EdgeMatches(s: string): seq<(string, string)>
  {
    EdgeScan(s, 0)
  }

  /** Every declaration-pattern match in `s`, in order. */
  function DeclMatches(s: string): seq<string>
  {
    DeclScan(s, 0)
  }

  /* ---------- the scanner accepts exactly the pattern texts ---------- */

  lemma SplitSlice(s: string, i: nat, j: nat, u: string, v: string)
    requires i <= j <= |s| && s[i..j] == u + v
    ensures i + |u| <= j
    ensures s[i..i + |u|] == u && s[i + |u|..j] == v
  {
    assert s[i..i + |u|] == s[i..j][..|u|];
    assert s[i + |u|..j] == s[i..j][|u|..];
  }

  lemma JoinSlice(s: string, i: nat, k: nat, j: nat)
    requires i <= k <= j <= |s|
    ensures s[i..j] == s[i..k] + s[k..j]
  {
  }

  lemma SkipSpacesExact(s: string, i: nat, j: nat)
    requires i <= j <= |s| && AllSpace(s[i..j])
    requires j == |s| || !IsSpace(s[j])
    ensures SkipSpaces(s, i) == j
  {
  }

  /** `"([^"]+)"` matches at `i` exactly when the text there is a quoted name. */
  lemma QuotedAtExact(s: string, i: nat, j: nat, name: string)
    requires i <= |s|
    ensures QuotedAt(s, i) == Some(Capture(name, j))
        <==> i <= j <= |s| && IsName(name) && s[i..j] == Quoted(name)
  {
    if QuotedAt(s, i) == Some(Capture(name, j)) {
      QuotedAtSound(s, i, j, name);
    }
    if i <= j <= |s| && IsName(name) && s[i..j] == Quoted(name) {
      QuotedAtComplete(s, i, j, name);
    }
  }

  lemma QuotedAtSound(s: string, i: nat, j: nat, name: string)
    requires i <= |s| && QuotedAt(s, i) == Some(Capture(name, j))
    ensures i <= j <= |s| && IsName(name) && s[i..j] == Quoted(name)
  {
    var q := j - 1;
    assert s[i] == '"' && s[q] == '"';
    assert s[i + 1..q] == name;
    forall k | 0 <= k < |name| ensures name[k] != '"' {
      assert name[k] == s[i + 1 + k];
    }
    SliceAround(s, i, j);
  }

  /** A slice of two characters or more is its first character, its middle and its last character. */
  lemma SliceAround(s: string, i: nat, j: nat)
    requires i + 2 <= j <= |s|
    ensures s[i..j] == [s[i]] + s[i + 1..j - 1] + [s[j - 1]]
  {
    var r := [s[i]] + s[i + 1..j - 1] + [s[j - 1]];
    forall k | 0 <= k < j - i ensures s[i..j][k] == r[k] {
      if 0 < k < j - i - 1 {
        assert r[k] == s[i + 1..j - 1][k - 1];
      }
    }
  }

  lemma QuotedAtComplete(s: string, i: nat, j: nat, name: string)
    requires i <= j <= |s| && IsName(name) && s[i..j] == Quoted(name)
    ensures QuotedAt(s, i) == Some(Capture(name, j))
  {
    var t := s[i..j];
    var q := i + 1 + |name|;
    assert |t| == |name| + 2 && j == q + 1;
    assert s[i] == t[0] == '"';
    assert s[q] == t[|name| + 1] == '"';
    forall k | i + 1 <= k < q ensures s[k] != '"' {
      assert s[k] == t[k - i] == name[k - i - 1];
    }
    NextQuoteAt(s, i + 1, q);
    var mid := s[i + 1..q];
    forall k | 0 <= k < |name| ensures mid[k] == name[k] {
      assert mid[k] == s[i + 1 + k] == t[k + 1] == name[k];
    }
    assert mid == name;
  }

  /** The next quote from `i` is the first quote at or after `i`. */
  lemma {:induction false} NextQuoteAt(s: string, i: nat, q: nat)
    requires i <= q < |s| && s[q] == '"'
    requires forall k :: i <= k < q ==> s[k] != '"'
    ensures NextQuote(s, i) == q
    decreases q - i
  {
    if i < q {
      NextQuoteAt(s, i + 1, q);
    }
  }

  /** The scanner finds an edge at `i` exactly when the text from `i` is an edge-pattern match. */
  lemma EdgeAtExact(s: string, i: nat, j: nat, src: string, dst: string)
    requires i <= |s|
    ensures EdgeAt(s, i) == Some(EdgeMatch(src, dst, j))
        <==> i <= j <= |s| && IsEdgeText(s[i..j], src, dst)
  {
    if EdgeAt(s, i) == Some(EdgeMatch(src, dst, j)) {
      EdgeAtSound(s, i, j, src, dst);
    }
    if i <= j <= |s| && IsEdgeText(s[i..j], src, dst) {
      var w1, w2 :| AllSpace(w1) && AllSpace(w2)
        && s[i..j] == Quoted(src) + w1 + "->" + w2 + Quoted(dst);
      EdgeAtComplete(s, i, j, src, dst, w1, w2);
    }
  }

  lemma EdgeAtSound(s: string, i: nat, j: nat, src: string, dst: string)
    requires i <= |s| && EdgeAt(s, i) == Some(EdgeMatch(src, dst, j))
    ensures i <= j <= |s| && IsEdgeText(s[i..j], src, dst)
  {
    var a := QuotedAt(s, i).value;
    var p := SkipSpaces(s, a.end);
    var q := SkipSpaces(s, p + 2);
    QuotedAtExact(s, i, a.end, a.name);
    QuotedAtExact(s, q, j, dst);
    var w1, w2 := s[a.end..p], s[p + 2..q];
    assert s[p..p + 2] == "->";
    assert a.name == src;
    FiveSlices(s, i, a.end, p, q, j);
    EdgeTextWitness(s[i..j], src, dst, w1, w2);
  }

  lemma EdgeTextWitness(t: string, src: string, dst: string, w1: string, w2: string)
    requires IsName(src) && IsName(dst) && AllSpace(w1) && AllSpace(w2)
    requires t == Quoted(src) + w1 + "->" + w2 + Quoted(dst)
    ensures IsEdgeText(t, src, dst)
  {
  }

  /** `s[i..j]` cut at four points. */
  lemma FiveSlices(s: string, i: nat, k: nat, p: nat, q: nat, j: nat)
    requires i <= k <= p && p + 2 <= q <= j <= |s|
    ensures s[i..j] == s[i..k] + s[k..p] + s[p..p + 2] + s[p + 2..q] + s[q..j]
  {
    JoinSlice(s, i, k, j);
    JoinSlice(s, k, p, j);
    JoinSlice(s, p, p + 2, j);
    JoinSlice(s, p + 2, q, j);
  }

  lemma EdgeAtComplete(s: string, i: nat, j: nat, src: string, dst: string, w1: string, w2: string)
    requires i <= j <= |s| && IsName(src) && IsName(dst) && AllSpace(w1) && AllSpace(w2)
    requires s[i..j] == Quoted(src) + w1 + "->" + w2 + Quoted(dst)
    ensures EdgeAt(s, i) == Some(EdgeMatch(src, dst, j))
  {
    var last := w2 + Quoted(dst);
    var arrow := "->" + last;
    assert s[i..j] == Quoted(src) + (w1 + arrow);
    var k1 := QuotedPrefix(s, i, j, src, w1 + arrow);
    var p := SpacesPrefix(s, k1, j, w1, arrow);
    assert s[p..j][0] == '-' && s[p..j][1] == '>';
    assert s[p + 2..j] == s[p..j][2..] == last;
    var q := SpacesPrefix(s, p + 2, j, w2, Quoted(dst));
    QuotedAtExact(s, q, j, dst);
    EdgeAtFromParts(s, i, k1, p, j, src, dst);
  }

  /** A quoted name at the front of `s[i..j]` is what `QuotedAt` captures. */
  lemma QuotedPrefix(s: string, i: nat, j: nat, name: string, rest: string) returns (k: nat)
    requires i <= j <= |s| && IsName(name)
    requires s[i..j] == Quoted(name) + rest
    ensures k == i + |name| + 2 <= j
    ensures QuotedAt(s, i) == Some(Capture(name, k)) && s[k..j] == rest
  {
    k := i + |Quoted(name)|;
    SplitSlice(s, i, j, Quoted(name), rest);
    QuotedAtExact(s, i, k, name);
  }

  /** Spaces at the front of `s[i..j]`, followed by a non-space, are what `SkipSpaces` skips. */
  lemma SpacesPrefix(s: string, i: nat, j: nat, w: string, rest: string) returns (k: nat)
    requires i <= j <= |s| && AllSpace(w)
    requires s[i..j] == w + rest && |rest| > 0 && !IsSpace(rest[0])
    ensures k == i + |w| < j
    ensures SkipSpaces(s, i) == k && s[k..j] == rest
  {
    k := i + |w|;
    SplitSlice(s, i, j, w, rest);
    assert s[k] == s[k..j][0];
    SkipSpacesExact(s, i, k);
  }

  lemma EdgeAtFromParts(s: string, i: nat, k1: nat, p: nat, j: nat, src: string, dst: string)
    requires i <= |s| && k1 <= |s|
    requires QuotedAt(s, i) == Some(Capture(src, k1)) && SkipSpaces(s, k1) == p
    requires p + 2 <= |s| && s[p] == '-' && s[p + 1] == '>'
    requires QuotedAt(s, SkipSpaces(s, p + 2)) == Some(Capture(dst, j))
    ensures EdgeAt(s, i) == Some(EdgeMatch(src, dst, j))
  {
  }

  lemma ArrowThenQuoted(s: string, p: nat, j: nat, w2: string, dst: string)
    requires p <= j <= |s| && IsName(dst) && AllSpace(w2)
    requires s[p..j] == "->" + w2 + Quoted(dst)
    ensures p + 2 <= |s| && s[p] == '-' && s[p + 1] == '>'
    ensures QuotedAt(s, SkipSpaces(s, p + 2)) == Some(Capture(dst, j))
  {
    assert s[p..j] == "->" + (w2 + Quoted(dst));
    SplitSlice(s, p, j, "->", w2 + Quoted(dst));
    assert s[p] == s[p..p + 2][0] && s[p + 1] == s[p..p + 2][1];
    var q := p + 2 + |w2|;
    SplitSlice(s, p + 2, j, w2, Quoted(dst));
    assert s[q] == s[q..j][0] == '"';
    SkipSpacesExact(s, p + 2, q);
    QuotedAtExact(s, q, j, dst);
  }

  /** The scanner finds a declaration at `i` exactly when `^` holds there and the text is a declaration-pattern match. */
  lemma DeclAtExact(s: string, i: nat, j: nat, name: string)
    requires i <= |s|
    ensures DeclAt(s, i) == Some(Capture(name, j))
        <==> LineStart(s, i) && i <= j <= |s| && IsDeclText(s[i..j], name)
  {
    if DeclAt(s, i) == Some(Capture(name, j)) {
      DeclAtSound(s, i, j, name);
    }
    if LineStart(s, i) && i <= j <= |s| && IsDeclText(s[i..j], name) {
      var w1, w2 :| AllSpace(w1) && AllSpace(w2)
        && s[i..j] == w1 + Quoted(name) + w2 + "[";
      DeclAtComplete(s, i, j, name, w1, w2);
    }
  }

  lemma DeclAtSound(s: string, i: nat, j: nat, name: string)
    requires i <= |s| && DeclAt(s, i) == Some(Capture(name, j))
    ensures LineStart(s, i) && i <= j <= |s| && IsDeclText(s[i..j], name)
  {
    var p0 := SkipSpaces(s, i);
    var a := QuotedAt(s, p0).value;
    var p := SkipSpaces(s, a.end);
    QuotedAtExact(s, p0, a.end, a.name);
    var w1, w2 := s[i..p0], s[a.end..p];
    assert s[p..j] == "[";
    JoinSlice(s, i, p0, j);
    JoinSlice(s, p0, a.end, j);
    JoinSlice(s, a.end, p, j);
    assert s[i..j] == w1 + Quoted(name) + w2 + "[";
  }

  lemma DeclAtComplete(s: string, i: nat, j: nat, name: string, w1: string, w2: string)
    requires i <= j <= |s| && LineStart(s, i) && IsName(name) && AllSpace(w1) && AllSpace(w2)
    requires s[i..j] == w1 + Quoted(name) + w2 + "["
    ensures DeclAt(s, i) == Some(Capture(name, j))
  {
    var tail := w2 + "[";
    assert s[i..j] == w1 + (Quoted(name) + tail);
    var p0 := SpacesPrefix(s, i, j, w1, Quoted(name) + tail);
    var k1 := QuotedPrefix(s, p0, j, name, tail);
    var p := SpacesPrefix(s, k1, j, w2, "[");
    DeclAtFromParts(s, i, p0, k1, p, j, name);
  }

  lemma DeclAtFromParts(s: string, i: nat, p0: nat, k1: nat, p: nat, j: nat, name: string)
    requires i <= |s| && k1 <= |s| && LineStart(s, i)
    requires SkipSpaces(s, i) == p0 && QuotedAt(s, p0) == Some(Capture(name, k1))
    requires SkipSpaces(s, k1) == p && p < |s| && s[p] == '[' && j == p + 1
    ensures DeclAt(s, i) == Some(Capture(name, j))
  {
  }
}
