/**
 * The chat-response splitter of the chat component: the three string
 * functions `extractCode`, `extractUpgrades` and `cleanText`.
 *
 * Each regular expression of the component is modelled by a search function
 * that computes its leftmost match, and a predicate that states what a match
 * of that expression is; the lemmas prove that the search returns the match
 * the JavaScript engine picks (leftmost start, lazy `*?` up to the first
 * closer, no `g` flag). The tail of the heading expression is modelled, not
 * proved: `$` without `m` is read as the end of the text and `[:\s]*` as
 * greedy, which is how `UpgradesCapture` and `RemoveUpgradesTail` are written.
 */
module ResponseSplitter {
  import opened Text

  /** Opener of the code block: three backticks and the tag `html`. */
  const HtmlOpen: string := "```html"
  /** Closer of the code block. */
  const Fence: string := "```"
  /** What `cleanText` puts where the code block was. */
  const Placeholder: string := "[Code successfully compiled to Workspace]"
  /** The upgrades heading, in the lower-case form it is compared in. */
  const Heading: string := "vibe upgrades"

  // ---------------------------------------------------------------------
  // The code block: /```html([\s\S]*?)```/
  // ---------------------------------------------------------------------

  /** A match of the code-block expression: the opener at `open`, the closer
      at `close`, the captured text in between. */
  datatype FenceMatch = FenceMatch(open: nat, close: nat) {
    function ContentStart(): nat { open + |HtmlOpen| }
    function End(): nat { close + |Fence| }
  }

  /** `[i, j + 3)` is a match of the expression that starts at `i`: the lazy
      group stops at the first closer after the opener. */
  predicate IsFenceMatch(t: string, i: nat, j: nat) {
    && OccursAt(t, HtmlOpen, i)
    && i + |HtmlOpen| <= j
    && OccursAt(t, Fence, j)
    && forall q :: i + |HtmlOpen| <= q < j ==> !OccursAt(t, Fence, q)
  }

  /** The match `String.prototype.match` reports: no match starts further left. */
  ghost predicate IsLeftmostFenceMatch(t: string, i: nat, j: nat) {
    IsFenceMatch(t, i, j) && forall i': nat, j': nat :: IsFenceMatch(t, i', j') ==> i <= i'
  }

  /** Some opener is followed, at or after its end, by a closer. */
  ghost predicate HasFencePair(t: string) {
    exists i: nat, j: nat :: OccursAt(t, HtmlOpen, i) && i + |HtmlOpen| <= j && OccursAt(t, Fence, j)
  }

  /** Leftmost opener, then the first closer after it. */
  function FindHtmlFence(t: string): (r: Option<FenceMatch>)
    ensures r.Some? ==> IsFenceMatch(t, r.value.open, r.value.close)
    ensures r.Some? ==> forall i :: OccursAt(t, HtmlOpen, i) ==> r.value.open <= i
    ensures r.None? <==> !HasFencePair(t)
  {
    match IndexOf(t, HtmlOpen, 0)
    case None => None
    case Some(i) =>
      match IndexOf(t, Fence, i + |HtmlOpen|)
      case None =>
        assert forall i': nat, j: nat :: OccursAt(t, HtmlOpen, i') && i' + |HtmlOpen| <= j ==> !OccursAt(t, Fence, j);
        None
      case Some(j) => Some(FenceMatch(i, j))
  }

  /** `FindHtmlFence` computes exactly the match the regular expression
      reports, and finds none exactly when the expression has no match. */
  lemma {:induction false} HtmlFenceIsRegexMatch(t: string)
    ensures FindHtmlFence(t).Some? ==>
      IsLeftmostFenceMatch(t, FindHtmlFence(t).value.open, FindHtmlFence(t).value.close)
    ensures FindHtmlFence(t).Some? ==> forall i: nat, j: nat :: IsLeftmostFenceMatch(t, i, j) ==>
      i == FindHtmlFence(t).value.open && j == FindHtmlFence(t).value.close
    ensures FindHtmlFence(t).None? <==> forall i: nat, j: nat :: !IsFenceMatch(t, i, j)
  {
    match FindHtmlFence(t)
    case None =>
      forall i: nat, j: nat | IsFenceMatch(t, i, j) ensures false {
        assert HasFencePair(t);
      }
    case Some(m) =>
      forall i': nat, j': nat | IsFenceMatch(t, i', j') ensures m.open <= i' {
      }
      forall i: nat, j: nat | IsLeftmostFenceMatch(t, i, j) ensures i == m.open && j == m.close {
        assert m.open <= i && i <= m.open;
      }
  }

  /** `extractCode`: the trimmed capture of the leftmost match, or nothing
      when there is no match or the capture is empty (an empty string is
      falsy). A whitespace-only capture gives `Some("")`. */
  function ExtractCode(t: string): (r: Option<string>)
    ensures r.Some? ==> IsTrimmed(r.value)
    ensures r.Some? ==> FindHtmlFence(t).Some?
  {
    match FindHtmlFence(t)
    case None => None
    case Some(m) =>
      var captured := t[m.ContentStart()..m.close];
      if captured == [] then None else Some(Trim(captured))
  }

  /** The code is the trimmed text between the leftmost opener and the first
      closer after it; there is none when no opener has a closer after it or
      when nothing at all stands between the two fences. */
  lemma {:induction false} ExtractCodeIsFirstBlock(t: string)
    ensures ExtractCode(t).Some? <==>
      exists i: nat, j: nat :: IsLeftmostFenceMatch(t, i, j) && i + |HtmlOpen| < j
    ensures forall i: nat, j: nat :: IsLeftmostFenceMatch(t, i, j) ==>
      ExtractCode(t) == (if i + |HtmlOpen| == j then None else Some(Trim(t[i + |HtmlOpen|..j])))
  {
    HtmlFenceIsRegexMatch(t);
    match FindHtmlFence(t)
    case None =>
    case Some(m) =>
      assert IsLeftmostFenceMatch(t, m.open, m.close);
  }

  /** Only the first block counts: whatever follows its closing fence,
      further blocks included, changes neither the code found nor the
      replacement, and is kept verbatim by the replacement. */
  lemma {:induction false} FirstBlockOnly(t: string, u: string)
    requires FindHtmlFence(t).Some?
    ensures FindHtmlFence(t[..FindHtmlFence(t).value.End()] + u) == FindHtmlFence(t)
    ensures ExtractCode(t[..FindHtmlFence(t).value.End()] + u) == ExtractCode(t)
    ensures ReplaceFirstFence(t[..FindHtmlFence(t).value.End()] + u)
         == t[..FindHtmlFence(t).value.open] + Placeholder + u
  {
    var m := FindHtmlFence(t).value;
    var n := m.End();
    var s := t[..n] + u;
    FirstBlockFence(t, u);
    assert s[m.ContentStart()..m.close] == t[m.ContentStart()..m.close];
    assert s[..m.open] == t[..m.open];
    assert s[n..] == u;
  }

  lemma FirstBlockFence(t: string, u: string)
    requires FindHtmlFence(t).Some?
    ensures FindHtmlFence(t[..FindHtmlFence(t).value.End()] + u) == FindHtmlFence(t)
  {
    var m := FindHtmlFence(t).value;
    var n := m.End();
    IndexOfTruncate(t, n, HtmlOpen, 0);
    IndexOfExtend(t[..n], u, HtmlOpen, 0);
    IndexOfTruncate(t, n, Fence, m.ContentStart());
    IndexOfExtend(t[..n], u, Fence, m.ContentStart());
  }

  // ---------------------------------------------------------------------
  // The upgrades heading: /(?:###|\*\*|)\s*Vibe Upgrades[:\s]*([\s\S]*?)$/i
  // ---------------------------------------------------------------------

  /** `Vibe Upgrades`, in any mix of ASCII letter case, starts at `k`. Under
      the non-Unicode `/i` flag a text character matches a pattern letter
      exactly when the two agree after ASCII case folding. */
  predicate HeadingAt(t: string, k: nat) {
    OccursAt(AsciiLower(t), Heading, k)
  }

  ghost predicate HasHeading(t: string) {
    exists k: nat :: HeadingAt(t, k)
  }

  /** What `(?:###|\*\*|)\s*` matches. */
  predicate IsLead(s: string) {
    || AllWhitespace(s)
    || (|s| >= 3 && s[..3] == "###" && AllWhitespace(s[3..]))
    || (|s| >= 2 && s[..2] == "**" && AllWhitespace(s[2..]))
  }

  /** A match of the expression starting at `p` with the heading at `k`.
      The tail `[:\s]*([\s\S]*?)$` matches whatever follows. */
  predicate IsHeadingMatch(t: string, p: nat, k: nat) {
    p <= k && HeadingAt(t, k) && IsLead(t[p..k])
  }

  /** Start of the whitespace run that ends at `k`. */
  function WhitespaceRunStart(t: string, k: nat): (w: nat)
    requires k <= |t|
    ensures w <= k && AllWhitespace(t[w..k])
    ensures forall i :: w <= i < k ==> IsWhitespace(t[i])
    ensures w == 0 || !IsWhitespace(t[w - 1])
  {
    if k > 0 && IsWhitespace(t[k - 1]) then
      var w := WhitespaceRunStart(t, k - 1);
      assert t[w..k] == t[w..k - 1] + [t[k - 1]];
      w
    else k
  }

  /** Where the heading match starts (`start`) and where the heading words
      themselves start (`heading`). */
  datatype HeadingMatch = HeadingMatch(start: nat, heading: nat)

  /** Where a match whose heading words start at `k` starts: the whitespace
      run before `k`, and a `###` or `**` just before that run. */
  function LeadStart(t: string, k: nat): (p: nat)
    requires k <= |t|
    ensures p <= k && IsLead(t[p..k])
  {
    var w := WhitespaceRunStart(t, k);
    if w >= 3 && t[w - 3..w] == "###" then
      assert t[w - 3..k][..3] == "###" && t[w - 3..k][3..] == t[w..k];
      w - 3
    else if w >= 2 && t[w - 2..w] == "**" then
      assert t[w - 2..k][..2] == "**" && t[w - 2..k][2..] == t[w..k];
      w - 2
    else
      w
  }

  /** No lead ending at `k` starts further left than `LeadStart(t, k)`. */
  lemma {:induction false} LeadStartIsLeftmost(t: string, p: nat, k: nat)
    requires p <= k <= |t| && IsLead(t[p..k])
    ensures LeadStart(t, k) <= p
  {
    var s := t[p..k];
    if AllWhitespace(s) {
      RunStartMinimal(t, p, k);
    } else if |s| >= 3 && s[..3] == "###" && AllWhitespace(s[3..]) {
      LeadAfterMarker(t, p, k, 3);
    } else {
      LeadAfterMarker(t, p, k, 2);
    }
  }

  /** A lead `###` or `**` followed by whitespace up to `k` starts where
      `LeadStart` says. */
  lemma LeadAfterMarker(t: string, p: nat, k: nat, n: nat)
    requires p + n <= k <= |t| && (n == 3 || n == 2)
    requires t[p..k][..n] == (if n == 3 then "###" else "**")
    requires AllWhitespace(t[p..k][n..])
    ensures LeadStart(t, k) == p
  {
    var w := WhitespaceRunStart(t, k);
    assert t[p..k][n..] == t[p + n..k];
    RunStartMinimal(t, p + n, k);
    assert t[p + n - 1] == t[p..k][..n][n - 1];
    assert !IsWhitespace(t[p + n - 1]);
    assert w == p + n;
    assert t[p..k][..n] == t[p..p + n];
    if n == 2 {
      assert t[w - 1] == '*';
      assert !(w >= 3 && t[w - 3..w] == "###") by {
        if w >= 3 { assert t[w - 3..w][2] == t[w - 1]; }
      }
    }
  }

  /** The whitespace run found by `WhitespaceRunStart` is the longest one. */
  lemma {:induction false} RunStartMinimal(t: string, q: nat, k: nat)
    requires q <= k <= |t| && AllWhitespace(t[q..k])
    ensures WhitespaceRunStart(t, k) <= q
    decreases k
  {
    if q < k {
      assert IsWhitespace(t[k - 1]) by { assert t[q..k][k - 1 - q] == t[k - 1]; }
      assert t[q..k - 1] == t[q..k][..k - 1 - q];
      RunStartMinimal(t, q, k - 1);
    }
  }

  /** The match anchored at the earliest heading. */
  function FindHeading(t: string): (r: Option<HeadingMatch>)
    ensures r.Some? ==> IsHeadingMatch(t, r.value.start, r.value.heading)
    ensures r.Some? ==> forall k: nat :: HeadingAt(t, k) ==> r.value.heading <= k
    ensures r.None? <==> !HasHeading(t)
  {
    match IndexOf(AsciiLower(t), Heading, 0)
    case None => None
    case Some(k) =>
      assert HeadingAt(t, k);
      Some(HeadingMatch(LeadStart(t, k), k))
  }

  /** Every character a lead consists of is `#`, `*` or whitespace. */
  lemma LeadCharacters(t: string, p: nat, k: nat, i: nat)
    requires p <= i < k <= |t| && IsLead(t[p..k])
    ensures t[i] == '#' || t[i] == '*' || IsWhitespace(t[i])
  {
    LeadCharactersOf(t[p..k], i - p);
    assert t[p..k][i - p] == t[i];
  }

  lemma LeadCharactersOf(s: string, i: nat)
    requires IsLead(s) && i < |s|
    ensures s[i] == '#' || s[i] == '*' || IsWhitespace(s[i])
  {
    if |s| >= 3 && s[..3] == "###" && AllWhitespace(s[3..]) {
      if i >= 3 { assert s[i] == s[3..][i - 3]; } else { assert s[i] == s[..3][i]; }
    } else if |s| >= 2 && s[..2] == "**" && AllWhitespace(s[2..]) {
      if i >= 2 { assert s[i] == s[2..][i - 2]; } else { assert s[i] == s[..2][i]; }
    }
  }

  /** The heading begins with a `v` or a `V`. */
  lemma HeadingFirstCharacter(t: string, k: nat)
    requires HeadingAt(t, k)
    ensures t[k] == 'v' || t[k] == 'V'
  {
    assert AsciiLower(t)[k] == AsciiLower(t)[k..k + |Heading|][0] == 'v';
  }

  /** No match of the heading expression starts to the left of the one
      `FindHeading` reports, and the one starting where it starts uses the
      same heading. */
  lemma {:induction false} HeadingMatchIsLeftmost(t: string, p: nat, k: nat)
    requires FindHeading(t).Some?
    requires IsHeadingMatch(t, p, k)
    ensures FindHeading(t).value.start <= p
    ensures p == FindHeading(t).value.start ==> k == FindHeading(t).value.heading
  {
    var h := FindHeading(t).value;
    var k0 := h.heading;
    if k0 < k {
      if p <= k0 {
        LeadCharacters(t, p, k, k0);
        HeadingFirstCharacter(t, k0);
        assert false;
      }
    } else {
      LeadStartIsLeftmost(t, p, k);
    }
  }

  /** `FindHeading` reports the leftmost match of the heading expression, and
      none exactly when the expression has no match. */
  lemma {:induction false} HeadingIsRegexMatch(t: string)
    ensures FindHeading(t).Some? ==> forall p: nat, k: nat :: IsHeadingMatch(t, p, k) ==>
      FindHeading(t).value.start <= p
        && (p == FindHeading(t).value.start ==> k == FindHeading(t).value.heading)
    ensures FindHeading(t).None? <==> forall p: nat, k: nat :: !IsHeadingMatch(t, p, k)
  {
    if FindHeading(t).Some? {
      forall p: nat, k: nat | IsHeadingMatch(t, p, k)
        ensures FindHeading(t).value.start <= p
        ensures p == FindHeading(t).value.start ==> k == FindHeading(t).value.heading
      {
        HeadingMatchIsLeftmost(t, p, k);
      }
    } else {
      forall p: nat, k: nat | IsHeadingMatch(t, p, k) ensures false {
      }
    }
  }

  /** A heading inside a slice is a heading of the whole text. */
  lemma HeadingInSlice(s: string, a: nat, b: nat, q: nat)
    requires a <= b <= |s|
    requires HeadingAt(s[a..b], q)
    ensures HeadingAt(s, a + q)
  {
    AsciiLowerSlice(s, a, b);
    OccursInSlice(AsciiLower(s), a, b, Heading, q);
  }

  /** A slice of a text without a heading has none. */
  lemma NoHeadingInSlice(s: string, a: nat, b: nat)
    requires a <= b <= |s|
    requires !HasHeading(s)
    ensures !HasHeading(s[a..b])
  {
    if HasHeading(s[a..b]) {
      var q :| HeadingAt(s[a..b], q);
      HeadingInSlice(s, a, b, q);
    }
  }

  // ---------------------------------------------------------------------
  // extractUpgrades
  // ---------------------------------------------------------------------

  /** A character of the class `[:\s]`. */
  predicate IsSeparator(c: char) {
    c == ':' || IsWhitespace(c)
  }

  /** End of the greedy `[:\s]*` run that starts at `i`. */
  function SkipSeparators(t: string, i: nat): (e: nat)
    requires i <= |t|
    ensures i <= e <= |t|
    ensures forall q :: i <= q < e ==> IsSeparator(t[q])
    ensures e == |t| || !IsSeparator(t[e])
    decreases |t| - i
  {
    if i < |t| && IsSeparator(t[i]) then SkipSeparators(t, i + 1) else i
  }

  /** `match[1]` of the heading expression: everything after the heading and
      the separators that follow it, to the end of the text. */
  function UpgradesCapture(t: string): (r: Option<string>)
    ensures r.None? <==> !HasHeading(t)
    ensures r.Some? ==> |r.value| <= |t| && r.value == t[|t| - |r.value|..]
    ensures r.Some? ==> FindHeading(t).value.heading + |Heading| <= |t| - |r.value|
    ensures r.Some? ==> forall q :: FindHeading(t).value.heading + |Heading| <= q < |t| - |r.value| ==>
      IsSeparator(t[q])
    ensures r.Some? ==> r.value == [] || !IsSeparator(r.value[0])
  {
    match FindHeading(t)
    case None => None
    case Some(h) => Some(t[SkipSeparators(t, h.heading + |Heading|)..])
  }

  /** `-`, `*` or the bullet sign. */
  predicate IsBullet(c: char) {
    c == '-' || c == '*' || c == '\U{2022}'
  }

  predicate StartsWithBullet(s: string) {
    |s| > 0 && IsBullet(s[0])
  }

  /** The lines that, once trimmed, begin with a bullet, in their order. */
  function KeepBulletLines(lines: seq<string>): (r: seq<string>)
    ensures forall i :: 0 <= i < |r| ==> StartsWithBullet(Trim(r[i]))
  {
    if lines == [] then []
    else if StartsWithBullet(Trim(lines[0])) then [lines[0]] + KeepBulletLines(lines[1..])
    else KeepBulletLines(lines[1..])
  }

  /** A bullet in the very first column and the whitespace after it are
      removed; a line that does not begin with a bullet, an indented bullet
      among them, is left alone. */
  function StripBullet(line: string): (r: string)
    ensures StartsWithBullet(line) ==>
      && 1 <= |line| - |r| && r == line[|line| - |r|..]
      && AllWhitespace(line[1..|line| - |r|])
      && (r == [] || !IsWhitespace(r[0]))
    ensures !StartsWithBullet(line) ==> r == line
  {
    if StartsWithBullet(line) then
      var r := TrimStart(line[1..]);
      assert line[1..][..|line| - 1 - |r|] == line[1..|line| - |r|];
      r
    else line
  }

  /** Each line with its leading bullet removed, then trimmed. */
  function CleanBullets(lines: seq<string>): (r: seq<string>)
    ensures |r| == |lines|
    ensures forall i :: 0 <= i < |r| ==> IsTrimmed(r[i])
  {
    seq(|lines|, i requires 0 <= i < |lines| => Trim(StripBullet(lines[i])))
  }

  /** The items that are not empty, in their order. */
  function DropEmpty(items: seq<string>): (r: seq<string>)
    ensures forall i :: 0 <= i < |r| ==> r[i] != []
    ensures (forall i :: 0 <= i < |items| ==> IsTrimmed(items[i])) ==>
      forall i :: 0 <= i < |r| ==> IsTrimmed(r[i])
  {
    if items == [] then []
    else if items[0] != [] then [items[0]] + DropEmpty(items[1..])
    else DropEmpty(items[1..])
  }

  /** The filter-map-filter chain applied to the lines of the capture. */
  function BulletItems(lines: seq<string>): (r: seq<string>)
    ensures forall i :: 0 <= i < |r| ==> r[i] != [] && IsTrimmed(r[i])
  {
    DropEmpty(CleanBullets(KeepBulletLines(lines)))
  }

  /** `extractUpgrades`: the bullet items of the text after the earliest
      heading. No heading, or nothing after it, gives no items. */
  function ExtractUpgrades(t: string): (r: seq<string>)
    ensures !HasHeading(t) ==> r == []
    ensures forall i :: 0 <= i < |r| ==> r[i] != [] && IsTrimmed(r[i])
  {
    match UpgradesCapture(t)
    case None => []
    case Some(captured) =>
      if captured == [] then [] else BulletItems(Split(captured, '\n'))
  }

  // ---------------------------------------------------------------------
  // cleanText
  // ---------------------------------------------------------------------

  /** The first code block, the same match `extractCode` finds, replaced by
      the placeholder, even when the block's content is empty. */
  function ReplaceFirstFence(t: string): (r: string)
    ensures FindHtmlFence(t).None? <==> r == t
  {
    match FindHtmlFence(t)
    case None => t
    case Some(m) =>
      var r := t[..m.open] + Placeholder + t[m.End()..];
      assert t[m.open] == t[m.open..m.open + |HtmlOpen|][0] == '`';
      assert r[m.open] == '[';
      r
  }

  /** The heading expression replaced by nothing: since its match runs to the
      end of the text, the text is cut where the match starts. */
  function RemoveUpgradesTail(t: string): (r: string)
    ensures |r| <= |t| && r == t[..|r|]
    ensures !HasHeading(r)
    ensures r == t <==> !HasHeading(t)
    ensures HasHeading(t) ==> |r| == FindHeading(t).value.start
  {
    match FindHeading(t)
    case None => t
    case Some(h) =>
      var r := t[..h.start];
      assert !HasHeading(r) by {
        if HasHeading(r) {
          var q :| HeadingAt(r, q);
          assert t[0..h.start] == r;
          HeadingInSlice(t, 0, h.start, q);
          assert false;
        }
      }
      r
  }

  /** `cleanText`: the block replaced by the placeholder, then the upgrades
      section cut off, then the whole trimmed. */
  function CleanText(t: string): (r: string)
    ensures IsTrimmed(r)
    ensures !HasHeading(r)
  {
    var c := RemoveUpgradesTail(ReplaceFirstFence(t));
    TrimKeepsNoHeading(c);
    Trim(c)
  }

  /** Trimming a text without a heading leaves none. */
  lemma TrimKeepsNoHeading(s: string)
    requires !HasHeading(s)
    ensures !HasHeading(Trim(s))
  {
    NoHeadingInSlice(s, LeadingWhitespace(s), LeadingWhitespace(s) + |Trim(s)|);
  }

  // ---------------------------------------------------------------------
  // Properties of extractUpgrades
  // ---------------------------------------------------------------------

  lemma {:induction false} KeepBulletLinesAppend(a: seq<string>, b: seq<string>)
    ensures KeepBulletLines(a + b) == KeepBulletLines(a) + KeepBulletLines(b)
  {
    if a == [] {
      assert a + b == b;
    } else {
      assert (a + b)[0] == a[0];
      assert (a + b)[1..] == a[1..] + b;
      KeepBulletLinesAppend(a[1..], b);
    }
  }

  lemma {:induction false} DropEmptyAppend(a: seq<string>, b: seq<string>)
    ensures DropEmpty(a + b) == DropEmpty(a) + DropEmpty(b)
  {
    if a == [] {
      assert a + b == b;
    } else {
      assert (a + b)[0] == a[0];
      assert (a + b)[1..] == a[1..] + b;
      DropEmptyAppend(a[1..], b);
    }
  }

  /** The items keep the order of their lines: the filter-map-filter chain
      works on each line separately. */
  lemma {:induction false} BulletItemsAppend(a: seq<string>, b: seq<string>)
    ensures BulletItems(a + b) == BulletItems(a) + BulletItems(b)
  {
    var ka, kb := KeepBulletLines(a), KeepBulletLines(b);
    KeepBulletLinesAppend(a, b);
    CleanBulletsAppend(ka, kb);
    DropEmptyAppend(CleanBullets(ka), CleanBullets(kb));
  }

  lemma CleanBulletsAppend(a: seq<string>, b: seq<string>)
    ensures CleanBullets(a + b) == CleanBullets(a) + CleanBullets(b)
  {
    var l, r := CleanBullets(a + b), CleanBullets(a) + CleanBullets(b);
    assert |l| == |r|;
    forall i | 0 <= i < |l| ensures l[i] == r[i] {
      if i < |a| { assert (a + b)[i] == a[i]; } else { assert (a + b)[i] == b[i - |a|]; }
    }
  }

  /** What a single line contributes to the upgrades: its cleaned text when
      the line is a bullet line and something is left, nothing otherwise. */
  function LineItem(line: string): seq<string> {
    var x := Trim(StripBullet(line));
    if StartsWithBullet(Trim(line)) && x != [] then [x] else []
  }

  /** One line gives one item exactly when its trimmed form starts with a
      bullet and something is left once the bullet is cleaned off. */
  lemma BulletItemsSingle(line: string)
    ensures BulletItems([line]) == LineItem(line)
  {
    KeepBulletLinesSingle(line);
    var x := Trim(StripBullet(line));
    if StartsWithBullet(Trim(line)) {
      assert CleanBullets([line]) == [x];
      DropEmptySingle(x);
    } else {
      assert CleanBullets([]) == [];
    }
  }

  lemma KeepBulletLinesSingle(line: string)
    ensures KeepBulletLines([line]) == if StartsWithBullet(Trim(line)) then [line] else []
  {
    assert [line][1..] == [];
  }

  lemma DropEmptySingle(x: string)
    ensures DropEmpty([x]) == if x != [] then [x] else []
  {
    assert [x][1..] == [];
  }

  /** A bullet indented by whitespace passes the filter, which looks at the
      trimmed line, but keeps its marker, because the replacement only looks
      at the first column of the untrimmed line. */
  lemma IndentedBulletKeepsMarker(line: string)
    requires |line| > 0 && IsWhitespace(line[0])
    requires StartsWithBullet(Trim(line))
    ensures BulletItems([line]) == [Trim(line)]
    ensures StartsWithBullet(BulletItems([line])[0])
  {
    BulletItemsSingle(line);
  }

  /** The first line of the captured section is never indented: the greedy
      `[:\s]*` after the heading also consumes the line break and the
      indentation before that line. A bullet on it therefore sits in the
      first column and loses its marker, unlike an indented bullet on a
      later line. */
  lemma FirstCaptureLineUnindented(t: string)
    ensures UpgradesCapture(t).Some? ==>
      var first := Split(UpgradesCapture(t).value, '\n')[0];
      && (first == [] || !IsWhitespace(first[0]))
      && (StartsWithBullet(Trim(first)) ==> StartsWithBullet(first))
  {
    if UpgradesCapture(t).Some? {
      var captured := UpgradesCapture(t).value;
      var pieces := Split(captured, '\n');
      JoinHead(pieces, '\n');
      var first := pieces[0];
      if first != [] {
        assert first[0] == captured[0];
        assert TrimStart(first) == first;
        assert Trim(first) == [] || Trim(first)[0] == first[0];
      }
    }
  }

  /** The items of each line, one line after the other. */
  function ItemsOfLines(lines: seq<string>): seq<string> {
    if lines == [] then [] else LineItem(lines[0]) + ItemsOfLines(lines[1..])
  }

  /** The filter-map-filter chain is the line-by-line reading: the items
      appear in the order of their lines, one per bullet line with text. */
  lemma {:induction false} BulletItemsByLine(lines: seq<string>)
    ensures BulletItems(lines) == ItemsOfLines(lines)
  {
    if lines != [] {
      assert lines == [lines[0]] + lines[1..];
      BulletItemsAppend([lines[0]], lines[1..]);
      BulletItemsSingle(lines[0]);
      BulletItemsByLine(lines[1..]);
    }
  }

  /** `extractUpgrades` reads the capture line by line; an empty capture,
      like a missing heading, gives no items. */
  lemma {:induction false} ExtractUpgradesByLine(t: string)
    ensures UpgradesCapture(t).Some? ==>
      ExtractUpgrades(t) == ItemsOfLines(Split(UpgradesCapture(t).value, '\n'))
    ensures UpgradesCapture(t).None? ==> ExtractUpgrades(t) == []
  {
    if UpgradesCapture(t).Some? {
      var captured := UpgradesCapture(t).value;
      if captured == [] {
        assert Split(captured, '\n') == [[]];
        assert Trim([]) == [];
        assert ItemsOfLines([[]]) == LineItem([]) + ItemsOfLines([]);
      } else {
        BulletItemsByLine(Split(captured, '\n'));
      }
    }
  }

  // ---------------------------------------------------------------------
  // Properties of extractCode and the first replacement
  // ---------------------------------------------------------------------

  /** A block with nothing between its fences yields no code, but is still
      replaced by the placeholder; a block holding only whitespace yields the
      empty code. */
  lemma {:induction false} EmptyBlocks(t: string)
    requires FindHtmlFence(t).Some?
    ensures var m := FindHtmlFence(t).value;
      ExtractCode(t).None? <==> m.ContentStart() == m.close
    ensures var m := FindHtmlFence(t).value;
      ExtractCode(t) == Some([]) <==>
        m.ContentStart() < m.close && AllWhitespace(t[m.ContentStart()..m.close])
    ensures ReplaceFirstFence(t) != t
  {
    var m := FindHtmlFence(t).value;
    TrimEmptyIffWhitespace(t[m.ContentStart()..m.close]);
  }

  /** The opener begins with a backtick. */
  lemma OpenerFirstCharacter(t: string, i: nat)
    requires OccursAt(t, HtmlOpen, i)
    ensures t[i] == '`'
  {
    assert t[i] == t[i..i + |HtmlOpen|][0];
  }

  lemma CloserFirstCharacter(t: string, j: nat)
    requires OccursAt(t, Fence, j)
    ensures t[j] == '`'
  {
    assert t[j] == t[j..j + |Fence|][0];
  }

  /** A placeholder cannot take part in an opener or a heading. */
  lemma PlaceholderCharacters()
    ensures forall i :: 0 <= i < |Placeholder| ==> Placeholder[i] != '`'
    ensures forall i :: 0 <= i < |Placeholder| ==> Placeholder[i] != 'v' && Placeholder[i] != 'V'
    ensures forall i :: 0 <= i < |HtmlOpen| ==> HtmlOpen[i] != '['
    ensures forall i :: 0 <= i < |Heading| ==> Heading[i] != '['
    ensures Placeholder[0] == '['
  {
  }

  /** The replaced text, character by character: the text before the block,
      the placeholder, then the text after the block. */
  lemma ReplacementShape(t: string)
    requires FindHtmlFence(t).Some?
    ensures var m := FindHtmlFence(t).value;
      ReplaceFirstFence(t) == t[..m.open] + Placeholder + t[m.End()..]
    ensures var m := FindHtmlFence(t).value;
      && |ReplaceFirstFence(t)| == m.open + |Placeholder| + (|t| - m.End())
      && ReplaceFirstFence(t)[..m.open] == t[..m.open]
      && ReplaceFirstFence(t)[m.open + |Placeholder|..] == t[m.End()..]
    ensures var m := FindHtmlFence(t).value;
      forall i :: m.open <= i < m.open + |Placeholder| ==>
        ReplaceFirstFence(t)[i] == Placeholder[i - m.open]
  {
    var m := FindHtmlFence(t).value;
    ConcatParts(t[..m.open], Placeholder, t[m.End()..]);
  }

  /** An opener in the replaced text lies in the part after the placeholder. */
  lemma {:induction false} OpenerAfterPlaceholder(t: string, q: nat)
    requires FindHtmlFence(t).Some?
    requires OccursAt(ReplaceFirstFence(t), HtmlOpen, q)
    ensures FindHtmlFence(t).value.open + |Placeholder| <= q
  {
    var o := FindHtmlFence(t).value.open;
    var c := ReplaceFirstFence(t);
    ReplacementShape(t);
    PlaceholderCharacters();
    OccursChars(c, HtmlOpen, q);
    OccursInCommonPrefix(c, t, o, HtmlOpen, q);
    assert c[o] == '[';
    assert c[q] == '`';
  }

  /** A complete block inside a slice is a complete block of the text. */
  lemma FencePairInSlice(s: string, a: nat, b: nat)
    requires a <= b <= |s|
    ensures HasFencePair(s[a..b]) ==> HasFencePair(s)
  {
    if HasFencePair(s[a..b]) {
      var i: nat, j: nat :| OccursAt(s[a..b], HtmlOpen, i) && i + |HtmlOpen| <= j
        && OccursAt(s[a..b], Fence, j);
      OccursInSlice(s, a, b, HtmlOpen, i);
      OccursInSlice(s, a, b, Fence, j);
    }
  }

  /** The replaced text holds a complete block only if the text after the
      first block does. */
  lemma {:induction false} ReplacementKeepsOnlyLaterBlocks(t: string)
    requires FindHtmlFence(t).Some?
    ensures HasFencePair(ReplaceFirstFence(t)) ==> HasFencePair(t[FindHtmlFence(t).value.End()..])
  {
    var m := FindHtmlFence(t).value;
    var c := ReplaceFirstFence(t);
    var b := m.open + |Placeholder|;
    if HasFencePair(c) {
      var i: nat, j: nat :| OccursAt(c, HtmlOpen, i) && i + |HtmlOpen| <= j && OccursAt(c, Fence, j);
      OpenerAfterPlaceholder(t, i);
      OccursInto(c, b, |c|, HtmlOpen, i);
      OccursInto(c, b, |c|, Fence, j);
      ReplacementShape(t);
      assert c[b..|c|] == t[m.End()..];
    }
  }

  // ---------------------------------------------------------------------
  // Headings around the replacement
  // ---------------------------------------------------------------------

  /** No heading of the replaced text overlaps the placeholder. */
  lemma {:induction false} HeadingOffPlaceholder(t: string, q: nat)
    requires FindHtmlFence(t).Some?
    requires HeadingAt(ReplaceFirstFence(t), q)
    ensures var m := FindHtmlFence(t).value;
      q + |Heading| <= m.open || m.open + |Placeholder| <= q
  {
    var o := FindHtmlFence(t).value.open;
    var c := ReplaceFirstFence(t);
    var low := AsciiLower(c);
    ReplacementShape(t);
    PlaceholderCharacters();
    OccursChars(low, Heading, q);
    HeadingFirstCharacter(c, q);
    assert c[o] == '[';
    assert low[o] == '[';
  }

  /** A heading of the replaced text is a heading of the text before the
      block or of the text after it; none touches the placeholder. */
  lemma {:induction false} HeadingsOfReplacement(t: string, q: nat)
    requires FindHtmlFence(t).Some?
    requires HeadingAt(ReplaceFirstFence(t), q)
    ensures var m := FindHtmlFence(t).value;
      || (q + |Heading| <= m.open && HeadingAt(t, q))
      || (m.open + |Placeholder| <= q && HeadingAt(t[m.End()..], q - m.open - |Placeholder|))
  {
    var m := FindHtmlFence(t).value;
    var b := m.open + |Placeholder|;
    var c := ReplaceFirstFence(t);
    HeadingOffPlaceholder(t, q);
    ReplacementShape(t);
    AsciiLowerSlice(c, 0, m.open);
    AsciiLowerSlice(t, 0, m.open);
    OccursInCommonPrefix(AsciiLower(c), AsciiLower(t), m.open, Heading, q);
    AsciiLowerSlice(c, b, |c|);
    AsciiLowerSlice(t, m.End(), |t|);
    OccursInCommonSuffix(AsciiLower(c), AsciiLower(t), b, m.End(), Heading, q);
  }

  // ---------------------------------------------------------------------
  // Properties of cleanText
  // ---------------------------------------------------------------------

  /** With neither a block nor a heading, the narrative is the trimmed text. */
  lemma CleanTextPlain(t: string)
    requires !HasFencePair(t) && !HasHeading(t)
    ensures CleanText(t) == Trim(t)
  {
  }

  /** A whitespace-only reply has an empty narrative, no code and no upgrades. */
  lemma {:induction false} WhitespaceOnlyReply(t: string)
    requires AllWhitespace(t)
    ensures CleanText(t) == [] && ExtractCode(t) == None && ExtractUpgrades(t) == []
  {
    if HasFencePair(t) {
      var i: nat, j: nat :| OccursAt(t, HtmlOpen, i) && i + |HtmlOpen| <= j && OccursAt(t, Fence, j);
      OpenerFirstCharacter(t, i);
      assert false;
    }
    if HasHeading(t) {
      var k: nat :| HeadingAt(t, k);
      HeadingFirstCharacter(t, k);
      assert false;
    }
    TrimEmptyIffWhitespace(t);
  }

  /** The narrative holds a complete block only if the text after the first
      block held one: re-parsing a narrative finds no code when the reply had
      at most one block. */
  lemma {:induction false} NarrativeHasNoFurtherBlock(t: string)
    requires FindHtmlFence(t).Some? ==> !HasFencePair(t[FindHtmlFence(t).value.End()..])
    ensures ExtractCode(CleanText(t)) == None
  {
    var c := ReplaceFirstFence(t);
    if FindHtmlFence(t).Some? {
      ReplacementKeepsOnlyLaterBlocks(t);
    }
    var r := RemoveUpgradesTail(c);
    CleaningKeepsNoBlock(c, |r|);
    assert CleanText(t) == Trim(c[..|r|]);
  }

  /** Cutting the text and trimming add no block. */
  lemma CleaningKeepsNoBlock(c: string, n: nat)
    requires n <= |c| && !HasFencePair(c)
    ensures !HasFencePair(Trim(c[..n]))
  {
    var r := c[..n];
    NoFencePairInSlice(c, 0, n);
    assert c[0..n] == r;
    var a := LeadingWhitespace(r);
    NoFencePairInSlice(r, a, a + |Trim(r)|);
  }

  lemma NoFencePairInSlice(s: string, a: nat, b: nat)
    requires a <= b <= |s| && !HasFencePair(s)
    ensures !HasFencePair(s[a..b])
  {
    FencePairInSlice(s, a, b);
  }

  /** When the earliest heading sits inside the first block,
      `extractUpgrades` reads its bullets from the raw text while
      `cleanText`, which looks for the heading only after the block was
      replaced, cuts nothing unless another heading follows the block. */
  lemma {:induction false} HeadingInsideBlock(t: string)
    ensures
      && FindHtmlFence(t).Some? && FindHeading(t).Some?
      && FindHtmlFence(t).value.ContentStart() <= FindHeading(t).value.heading
      && FindHeading(t).value.heading + |Heading| <= FindHtmlFence(t).value.close
      && !HasHeading(t[FindHtmlFence(t).value.End()..])
      ==>
      && UpgradesCapture(t).Some?
      && |t| - |UpgradesCapture(t).value| <= FindHtmlFence(t).value.close
      && CleanText(t) == Trim(ReplaceFirstFence(t))
  {
    if FindHtmlFence(t).Some? && !HasHeading(t[FindHtmlFence(t).value.End()..])
      && FindHeading(t).Some?
      && FindHtmlFence(t).value.ContentStart() <= FindHeading(t).value.heading
      && FindHeading(t).value.heading + |Heading| <= FindHtmlFence(t).value.close
    {
      var m := FindHtmlFence(t).value;
      CloserFirstCharacter(t, m.close);
      assert !IsSeparator(t[m.close]);
      var c := ReplaceFirstFence(t);
      if HasHeading(c) {
        var q: nat :| HeadingAt(c, q);
        HeadingsOfReplacement(t, q);
        assert false;
      }
      assert RemoveUpgradesTail(c) == c;
    }
  }
}
