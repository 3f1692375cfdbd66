/**
 * The per-file text transform of the banner tool: `apply` splices a fixed
 * include block in after a page's `---` front matter unless the block is
 * already there, and `remove` deletes every occurrence of the block.
 */
module Banner {
  import opened PyStr

  /** The blank lines that surround the include shortcode. */
  const BORDER: string := "\n\n"
  /** The Quarto shortcode that pulls in the shared banner page. */
  const INCLUDE: string := "{{< include ../_banner/_banner.qmd >}}"
  /** The block `apply` inserts and `remove` deletes. */
  const BANNER: string := BORDER + INCLUDE + BORDER
  /** The front-matter delimiter. */
  const MARKER: string := "---"

  /**
   * Where `apply` splits the text, before Python's slicing clamps it: four
   * characters past the start of the first `---` found at least three
   * characters after the first `---`, or 3 when that search fails.
   */
  function InsertIndex(content: string): (i: int)
    ensures i == 3 || (7 <= i && IsAt(content, MARKER, i - 4))
  {
    var first := Find(content, MARKER, 0);
    FindSpec(content, MARKER, 0);
    FindSpec(content, MARKER, first + 3);
    Find(content, MARKER, first + 3) + 4
  }

  /** The index Python's `content[:i]` and `content[i:]` actually split at. */
  function SplitPoint(content: string): (p: nat)
    ensures p <= |content|
  {
    ClampIndex(InsertIndex(content), |content|)
  }

  /** The new content `apply_banner` writes back for a page. */
  function Apply(content: string): (r: string)
    ensures Contains(content, BANNER) ==> r == content
    ensures !Contains(content, BANNER) ==>
              var p := SplitPoint(content);
              |r| == |content| + |BANNER| &&
              r[..p] == content[..p] &&
              IsAt(r, BANNER, p) &&
              r[p + |BANNER|..] == content[p..]
    ensures Contains(r, BANNER)
  {
    if Contains(content, BANNER) then content
    else
      var i := InsertIndex(content);
      var head, tail := PySlice(content, 0, i), PySlice(content, i, |content|);
      var r := head + BANNER + tail;
      var p := SplitPoint(content);
      assert head == content[..p];
      assert tail == content[p..];
      assert r[p..p + |BANNER|] == BANNER;
      assert IsAt(r, BANNER, p);
      r
  }

  /** The new content `remove_banner` writes back: `content.replace(BANNER, "")`. */
  function Remove(content: string): (r: string)
    ensures !Contains(content, BANNER) ==> r == content
    ensures |r| == |content| - Count(content, BANNER) * |BANNER|
    ensures Contains(content, BANNER) ==> |r| < |content|
  {
    ReplaceAllLength(content, BANNER, []);
    CountZeroIff(content, BANNER);
    var r := ReplaceAll(content, BANNER, []);
    assert !Contains(content, BANNER) ==> r == content by {
      if !Contains(content, BANNER) {
        ReplaceAllNoMatch(content, BANNER, []);
      }
    }
    r
  }

  /** With two delimiters, `i` is four past the start of the second one. */
  lemma InsertIndexTwoMarkers(content: string, first: nat, second: nat)
    requires IsAt(content, MARKER, first)
    requires forall k :: 0 <= k < first ==> !IsAt(content, MARKER, k)
    requires first + 3 <= second && IsAt(content, MARKER, second)
    requires forall k :: first + 3 <= k < second ==> !IsAt(content, MARKER, k)
    ensures InsertIndex(content) == second + 4
  {
    FindSpec(content, MARKER, 0);
    assert Find(content, MARKER, 0) == first;
    FindSpec(content, MARKER, first + 3);
  }

  /**
   * With fewer than two non-overlapping delimiters the second search
   * misses and `i` is 3, which slicing clamps to the text's length.
   */
  lemma InsertIndexFewerMarkers(content: string)
    requires forall p, q :: IsAt(content, MARKER, p) && IsAt(content, MARKER, q) ==> q < p + 3
    ensures InsertIndex(content) == 3
    ensures SplitPoint(content) == if |content| < 3 then |content| else 3
  {
    var first := Find(content, MARKER, 0);
    FindSpec(content, MARKER, 0);
    FindSpec(content, MARKER, first + 3);
  }

  /** A second delimiter that ends the text makes `apply` append the banner. */
  lemma ApplyMarkerAtEnd(content: string, first: nat)
    requires IsAt(content, MARKER, first)
    requires forall k :: 0 <= k < first ==> !IsAt(content, MARKER, k)
    requires first + 3 <= |content| - 3 && IsAt(content, MARKER, |content| - 3)
    requires forall k :: first + 3 <= k < |content| - 3 ==> !IsAt(content, MARKER, k)
    requires !Contains(content, BANNER)
    ensures Apply(content) == content + BANNER
  {
    InsertIndexTwoMarkers(content, first, |content| - 3);
    var r := Apply(content);
    assert r[..|content|] == content;
    assert r[|content|..] == BANNER;
    assert r == r[..|content|] + r[|content|..];
  }

  /** `apply` always leaves the banner in the text, so a second run skips. */
  lemma ApplyIdempotent(content: string)
    ensures Apply(Apply(content)) == Apply(content)
  {
  }

  /** The applied text is the original split at `SplitPoint` with the banner in between. */
  lemma ApplySplice(content: string)
    requires !Contains(content, BANNER)
    ensures Apply(content) == content[..SplitPoint(content)] + BANNER + content[SplitPoint(content)..]
  {
    var p, r := SplitPoint(content), Apply(content);
    assert r[p..p + |BANNER|] == BANNER;
    assert r == r[..p] + r[p..p + |BANNER|] + r[p + |BANNER|..];
  }

  /**
   * `remove` undoes a non-skipped `apply` whenever no occurrence of the
   * banner in the applied text starts before the inserted one.
   */
  lemma RemoveAfterApply(content: string)
    requires !Contains(content, BANNER)
    requires forall j :: 0 <= j < SplitPoint(content) ==> !IsAt(Apply(content), BANNER, j)
    ensures Remove(Apply(content)) == content
  {
    var p, r := SplitPoint(content), Apply(content);
    var head, tail := content[..p], content[p..];
    ApplySplice(content);
    assert r == head + BANNER + tail;
    if Contains(tail, BANNER) {
      ContainsSuffix(content, BANNER, p);
    }
    ReplaceSplice(head, BANNER, tail);
    assert Remove(r) == ReplaceAll(r, BANNER, []) == head + tail;
    assert head + tail == content;
  }

  /** The characters of the banner that the round-trip argument looks at. */
  lemma BannerFacts()
    ensures |BANNER| == 42
    ensures BANNER[0] == '\n' && BANNER[1] == '\n' && BANNER[2] == '{'
    ensures BANNER[38] == '}' && BANNER[39] == '}' && BANNER[40] == '\n'
    ensures forall e :: 2 <= e < 40 ==> BANNER[e] != '\n'
  {
    assert '\n' !in INCLUDE;
    forall e | 2 <= e < 40 ensures BANNER[e] != '\n' {
      assert BANNER[e] == INCLUDE[e - 2];
    }
  }

  /** `apply` splits the text right after a `-`, or within its first three characters. */
  lemma SplitAfterDash(content: string)
    ensures var p := SplitPoint(content);
            p <= 3 || content[p - 2] == '-' || content[p - 1] == '-'
  {
    var i, p := InsertIndex(content), SplitPoint(content);
    if p > 3 {
      assert IsAt(content, MARKER, i - 4);
      assert content[i - 4..i - 1] == MARKER;
      assert content[i - 2] == content[i - 4..i - 1][2] == '-';
      assert p == i || p == i - 1;
    }
  }

  /**
   * For this banner, no occurrence in `head + BANNER + tail` can straddle
   * the start of the inserted copy when `head` ends just after a `-`: such an
   * occurrence would begin 40 or 41 characters before it (the banner only
   * overlaps itself by its `\n\n` border), so `head` would end in `}}` or
   * `}}\n`.
   */
  lemma NoStraddle(head: string, tail: string, j: nat)
    requires j < |head| < j + |BANNER|
    requires |head| <= 3 || head[|head| - 2] == '-' || head[|head| - 1] == '-'
    ensures !IsAt(head + BANNER + tail, BANNER, j)
  {
    if IsAt(head + BANNER + tail, BANNER, j) {
      BannerFacts();
      StraddleBorder(head, BANNER, tail, j);
    }
  }

  /**
   * No occurrence of the banner in `head + BANNER + tail` starts inside
   * `head` when `head` has none and ends just after a `-`.
   */
  lemma NoEarlyOccurrence(head: string, tail: string, j: nat)
    requires !Contains(head, BANNER)
    requires j < |head|
    requires |head| <= 3 || head[|head| - 2] == '-' || head[|head| - 1] == '-'
    ensures !IsAt(head + BANNER + tail, BANNER, j)
  {
    if |head| < j + |BANNER| {
      NoStraddle(head, tail, j);
    } else {
      assert head + BANNER + tail == head + (BANNER + tail);
      IsAtLeft(head, BANNER + tail, BANNER, j);
    }
  }

  /** No occurrence of the banner in the applied text starts before the inserted one. */
  lemma NoEarlyBanner(content: string, j: nat)
    requires !Contains(content, BANNER)
    requires j < SplitPoint(content)
    ensures !IsAt(Apply(content), BANNER, j)
  {
    var p := SplitPoint(content);
    var head, tail := content[..p], content[p..];
    ApplySplice(content);
    assert Apply(content) == head + BANNER + tail;
    SplitAfterDash(content);
    assert |head| <= 3 || head[|head| - 2] == '-' || head[|head| - 1] == '-';
    if Contains(head, BANNER) {
      ContainsPrefix(content, BANNER, p);
    }
    NoEarlyOccurrence(head, tail, j);
  }

  /** A page that `apply` skips loses its existing banner in `remove`, so it is not restored. */
  lemma SkippedNotRestored(content: string)
    requires Contains(content, BANNER)
    ensures Remove(Apply(content)) != content
  {
  }

  /** Removing the banner restores every page that `apply` did not skip. */
  lemma RemoveApplyRoundTrip(content: string)
    requires !Contains(content, BANNER)
    ensures Remove(Apply(content)) == content
  {
    forall j | 0 <= j < SplitPoint(content)
      ensures !IsAt(Apply(content), BANNER, j)
    {
      NoEarlyBanner(content, j);
    }
    RemoveAfterApply(content);
  }
}
