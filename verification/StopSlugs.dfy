/**
 Slugs of services and stops (internal/transit/userservice.go, `Slugify`; internal/handler/service.go,
 `mintSlug`; internal/transit/compilable.go, `StopSlugs`).

 `text` is a name already trimmed and lower-cased, and `isWord` tells letters and digits; Unicode is not
 modelled beyond that, and lengths count characters.
 */
module StopSlugs {
  import opened Collections
  import opened Text

  const MAX_SLUG_LEN := 80

  // ----- Slugify -----

  /** The builder after the loop: words joined by single dashes, with at most one dash at the end. */
  function Dashed(isWord: char -> bool, text: string): string {
    if text == [] then []
    else
      var b, r := Dashed(isWord, text[..|text| - 1]), text[|text| - 1];
      if isWord(r) then b + [r]
      else if b != [] && b[|b| - 1] != '-' then b + ['-']
      else b
  }

  function TrimLeft(s: string): string {
    if s != [] && s[0] == '-' then TrimLeft(s[1..]) else s
  }

  function TrimRight(s: string): string {
    if s != [] && s[|s| - 1] == '-' then TrimRight(s[..|s| - 1]) else s
  }

  function Trim(s: string): string {
    TrimRight(TrimLeft(s))
  }

  function SlugOf(isWord: char -> bool, text: string): string {
    var slug := Trim(Dashed(isWord, text));
    var cut := if |slug| > MAX_SLUG_LEN then Trim(slug[..MAX_SLUG_LEN]) else slug;
    if cut == [] then "service" else cut
  }

  method Slugify(isWord: char -> bool, text: string) returns (slug: string)
    requires !isWord('-')
    ensures slug == SlugOf(isWord, text)
  {
    var b, lastDash, i := [], false, 0;
    while i < |text|
      invariant 0 <= i <= |text|
      invariant b == Dashed(isWord, text[..i])
      invariant lastDash <==> b != [] && b[|b| - 1] == '-'
    {
      assert text[..i + 1][..i] == text[..i];
      var r := text[i];
      if isWord(r) {
        b, lastDash := b + [r], false;
      } else if !lastDash && |b| > 0 {
        b, lastDash := b + ['-'], true;
      }
      i := i + 1;
    }
    assert text[..i] == text;
    slug := Trim(b);
    if |slug| > MAX_SLUG_LEN {
      slug := Trim(slug[..MAX_SLUG_LEN]);
    }
    if slug == "" {
      slug := "service";
    }
  }

  // ----- The shape of a slug -----

  predicate NoDoubleDash(s: string) {
    forall i, j :: 0 <= i < |s| && j == i + 1 && j < |s| ==> !(s[i] == '-' && s[j] == '-')
  }

  /** Not empty, no dash at either end, and never two dashes in a row. */
  predicate Shaped(s: string) {
    s != [] && s[0] != '-' && s[|s| - 1] != '-' && NoDoubleDash(s)
  }

  lemma {:induction false} DashedShape(isWord: char -> bool, text: string)
    requires !isWord('-')
    ensures NoDoubleDash(Dashed(isWord, text))
  {
    if text != [] {
      DashedShape(isWord, text[..|text| - 1]);
    }
  }

  lemma {:induction false} TrimLeftShape(s: string)
    requires NoDoubleDash(s)
    ensures NoDoubleDash(TrimLeft(s)) && |TrimLeft(s)| <= |s|
    ensures TrimLeft(s) != [] ==> TrimLeft(s)[0] != '-'
  {
    if s != [] && s[0] == '-' {
      assert NoDoubleDash(s[1..]) by {
        forall i, j | 0 <= i < |s[1..]| && j == i + 1 && j < |s[1..]| ensures !(s[1..][i] == '-' && s[1..][j] == '-') {
          assert !(s[i + 1] == '-' && s[j + 1] == '-');
        }
      }
      TrimLeftShape(s[1..]);
    }
  }

  lemma {:induction false} TrimRightShape(s: string)
    requires NoDoubleDash(s)
    ensures NoDoubleDash(TrimRight(s)) && TrimRight(s) <= s
    ensures TrimRight(s) != [] ==> TrimRight(s)[|TrimRight(s)| - 1] != '-'
  {
    if s != [] && s[|s| - 1] == '-' {
      TrimRightShape(s[..|s| - 1]);
    }
  }

  lemma TrimShape(s: string)
    requires NoDoubleDash(s)
    ensures Trim(s) == [] || Shaped(Trim(s))
    ensures |Trim(s)| <= |s|
  {
    TrimLeftShape(s);
    TrimRightShape(TrimLeft(s));
  }

  /** Every slug is shaped and at most 80 long. */
  lemma SlugShaped(isWord: char -> bool, text: string)
    requires !isWord('-')
    ensures Shaped(SlugOf(isWord, text)) && |SlugOf(isWord, text)| <= 80
  {
    var b := Dashed(isWord, text);
    DashedShape(isWord, text);
    TrimShape(b);
    var slug := Trim(b);
    if |slug| > MAX_SLUG_LEN {
      TrimShape(slug[..MAX_SLUG_LEN]);
    }
    hide Trim, Dashed;
    assert Shaped("service");
  }

  // ----- What survives of a name -----

  function WordsOf(isWord: char -> bool, s: string): string {
    if s == [] then []
    else WordsOf(isWord, s[..|s| - 1]) + (if isWord(s[|s| - 1]) then [s[|s| - 1]] else [])
  }

  lemma {:induction false} WordsConcat(isWord: char -> bool, s: string, t: string)
    ensures WordsOf(isWord, s + t) == WordsOf(isWord, s) + WordsOf(isWord, t)
  {
    if t == [] {
      assert s + t == s;
    } else {
      var n := |t| - 1;
      assert (s + t)[..|s| + n] == s + t[..n];
      WordsConcat(isWord, s, t[..n]);
    }
  }

  lemma {:induction false} DashedWords(isWord: char -> bool, text: string)
    requires !isWord('-')
    ensures WordsOf(isWord, Dashed(isWord, text)) == WordsOf(isWord, text)
  {
    if text != [] {
      var n := |text| - 1;
      var b := Dashed(isWord, text[..n]);
      DashedWords(isWord, text[..n]);
      assert (b + [text[n]])[..|b|] == b && (b + ['-'])[..|b|] == b;
    }
  }

  lemma {:induction false} TrimLeftWords(isWord: char -> bool, s: string)
    requires !isWord('-')
    ensures WordsOf(isWord, TrimLeft(s)) == WordsOf(isWord, s)
  {
    if s != [] && s[0] == '-' {
      TrimLeftWords(isWord, s[1..]);
      assert s == [s[0]] + s[1..];
      WordsConcat(isWord, [s[0]], s[1..]);
      assert WordsOf(isWord, ['-']) == [];
    }
  }

  lemma {:induction false} TrimRightWords(isWord: char -> bool, s: string)
    requires !isWord('-')
    ensures WordsOf(isWord, TrimRight(s)) == WordsOf(isWord, s)
  {
    if s != [] && s[|s| - 1] == '-' {
      TrimRightWords(isWord, s[..|s| - 1]);
    }
  }

  lemma TrimWords(isWord: char -> bool, s: string)
    requires !isWord('-')
    ensures WordsOf(isWord, Trim(s)) == WordsOf(isWord, s)
  {
    TrimLeftWords(isWord, s);
    TrimRightWords(isWord, TrimLeft(s));
  }

  lemma ShapedHasWords(isWord: char -> bool, text: string)
    requires !isWord('-') && WordsOf(isWord, text) == []
    ensures Dashed(isWord, text) == []
  {
    if text != [] {
      ShapedHasWords(isWord, text[..|text| - 1]);
    }
  }

  /**
   A slug keeps the letters and digits of the name in order: all of them when the dashed name fits, the
   first ones when it is cut. A name without any becomes "service".
   */
  lemma SlugKeepsWords(isWord: char -> bool, text: string)
    requires !isWord('-')
    ensures var words, slug := WordsOf(isWord, text), SlugOf(isWord, text);
            if words == [] then slug == "service"
            else WordsOf(isWord, slug) <= words
                 && (|Trim(Dashed(isWord, text))| <= 80 ==> WordsOf(isWord, slug) == words)
  {
    var b := Dashed(isWord, text);
    var slug := Trim(b);
    DashedWords(isWord, text);
    TrimWords(isWord, b);
    if WordsOf(isWord, text) == [] {
      ShapedHasWords(isWord, text);
    } else {
      DashedShape(isWord, text);
      TrimShape(b);
      if |slug| > MAX_SLUG_LEN {
        var head, tail := slug[..MAX_SLUG_LEN], slug[MAX_SLUG_LEN..];
        assert slug == head + tail;
        WordsConcat(isWord, head, tail);
        TrimWords(isWord, head);
        CutKeepsSome(head);
      }
    }
    hide Trim, Dashed;
  }

  /** A cut slug still begins with something other than a dash, so trimming leaves something. */
  lemma CutKeepsSome(head: string)
    requires head != [] && head[0] != '-'
    ensures Trim(head) != []
  {
    TrimRightKeeps(head);
  }

  lemma {:induction false} TrimRightKeeps(s: string)
    requires s != [] && s[0] != '-'
    ensures TrimRight(s) != []
  {
    if s[|s| - 1] == '-' {
      TrimRightKeeps(s[..|s| - 1]);
    }
  }

  /** What the handler mints for a service: the slug of its name, or that with a collision suffix. */
  predicate Minted(isWord: char -> bool, text: string, slug: string) {
    var base := SlugOf(isWord, text);
    slug == base || exists n :: 2 <= n <= 100 && slug == Suffixed(base, n)
  }

  lemma MintedShaped(isWord: char -> bool, text: string, slug: string)
    requires !isWord('-') && Minted(isWord, text, slug)
    ensures Shaped(slug)
  {
    hide SlugOf, Decimal;
    var base := SlugOf(isWord, text);
    SlugShaped(isWord, text);
    if slug != base {
      var n :| 2 <= n <= 100 && slug == Suffixed(base, n);
      var k := |base|;
      assert slug[k] == '-' && slug[..k] == base && slug[k + 1..] == Decimal(n);
      forall i, j | 0 <= i < |slug| && j == i + 1 && j < |slug| ensures !(slug[i] == '-' && slug[j] == '-') {
        if j < k {
          assert slug[i] == base[i] && slug[j] == base[j];
        } else if j == k {
          assert slug[i] == base[k - 1];
        } else {
          assert slug[j] == Decimal(n)[j - k - 1];
        }
      }
      assert slug[|slug| - 1] == Decimal(n)[|Decimal(n)| - 1];
      assert slug[0] == base[0];
    }
  }

  // ----- Stop slugs -----

  function StopBase(isWord: char -> bool, svcSlug: string, stopText: string): string {
    svcSlug + "--" + SlugOf(isWord, stopText)
  }

  /** `slug` is the base if that is free, else the base with the least free suffix from 2. */
  ghost predicate FirstFree(base: string, taken: set<string>, slug: string) {
    && slug !in taken
    && if base !in taken then slug == base
       else exists n: nat :: 2 <= n && slug == Suffixed(base, n) && forall m: nat :: 2 <= m < n ==> Suffixed(base, m) in taken
  }

  /** The second stop of one name gets the suffix 2, the third 3. */
  lemma RepeatedNames(base: string, slug: string)
    ensures FirstFree(base, {}, slug) ==> slug == base
    ensures FirstFree(base, {base}, slug) ==> slug == base + "-2"
    ensures FirstFree(base, {base, base + "-2"}, slug) ==> slug == base + "-3"
  {
    assert Decimal(2) == "2" && Decimal(3) == "3";
    hide Decimal;
    assert Suffixed(base, 2) == base + "-2" && Suffixed(base, 3) == base + "-3";
    assert |base + "-2"| > |base| && (base + "-3")[|base| + 1] != (base + "-2")[|base| + 1];
    if FirstFree(base, {base}, slug) {
      var n: nat :| 2 <= n && slug == Suffixed(base, n) && forall m: nat :: 2 <= m < n ==> Suffixed(base, m) in {base};
    }
    if FirstFree(base, {base, base + "-2"}, slug) {
      var n: nat :| 2 <= n && slug == Suffixed(base, n)
                    && forall m: nat :: 2 <= m < n ==> Suffixed(base, m) in {base, base + "-2"};
    }
  }

  /** The taken slugs that a search starting at suffix `n` can still run into. */
  ghost function Blocked(base: string, taken: set<string>, n: nat): set<string> {
    set t | t in taken && exists m: nat :: n <= m && t == Suffixed(base, m)
  }

  /** Each taken suffix the search passes is never met again, so the search ends. */
  lemma BlockedShrinks(base: string, taken: set<string>, n: nat)
    requires Suffixed(base, n) in taken
    ensures |Blocked(base, taken, n + 1)| < |Blocked(base, taken, n)|
  {
    var t := Suffixed(base, n);
    assert t in Blocked(base, taken, n);
    forall x | x in Blocked(base, taken, n + 1) ensures x in Blocked(base, taken, n) - {t} {
      var m: nat :| n + 1 <= m && x == Suffixed(base, m);
      if x == t {
        SuffixedInjective(base, m, n);
      }
    }
    SubsetSize(Blocked(base, taken, n + 1), Blocked(base, taken, n) - {t});
  }

  ghost function Elements(s: seq<string>): set<string> {
    set x | x in s
  }

  /** The retry loop: ends because each taken suffix is met at most once. */
  method NextSlug(base: string, taken: set<string>) returns (slug: string)
    ensures FirstFree(base, taken, slug)
  {
    hide Decimal;
    if base !in taken { return base; }
    var n := 2;
    slug := Suffixed(base, n);
    while slug in taken
      invariant 2 <= n && slug == Suffixed(base, n)
      invariant forall m: nat :: 2 <= m < n ==> Suffixed(base, m) in taken
      decreases |Blocked(base, taken, n)|
    {
      BlockedShrinks(base, taken, n);
      n := n + 1;
      slug := Suffixed(base, n);
    }
  }

  /** The `k`-th slug is the first one free after those before it. */
  ghost predicate SlugAt(isWord: char -> bool, svcSlug: string, stopTexts: seq<string>, slugs: seq<string>, k: nat)
    requires k < |slugs| && k < |stopTexts|
  {
    FirstFree(StopBase(isWord, svcSlug, stopTexts[k]), Elements(slugs[..k]), slugs[k])
  }

  /** A distinct slug for every stop, in order, each the first one free. */
  method StopSlugs(isWord: char -> bool, svcSlug: string, stopTexts: seq<string>) returns (slugs: seq<string>)
    requires !isWord('-')
    ensures |slugs| == |stopTexts| && NoRepeat(slugs)
    ensures forall k :: 0 <= k < |slugs| ==> SlugAt(isWord, svcSlug, stopTexts, slugs, k)
  {
    hide FirstFree, StopBase, SlugOf;
    slugs := [];
    var taken, i := {}, 0;
    while i < |stopTexts|
      invariant 0 <= i <= |stopTexts| && |slugs| == i
      invariant taken == Elements(slugs) && NoRepeat(slugs)
      invariant forall k :: 0 <= k < i ==> SlugAt(isWord, svcSlug, stopTexts, slugs, k)
    {
      var stopSlug := Slugify(isWord, stopTexts[i]);
      var slug := NextSlug(svcSlug + "--" + stopSlug, taken);
      AddSlug(isWord, svcSlug, stopTexts, slugs, slug);
      slugs, taken := slugs + [slug], taken + {slug};
      i := i + 1;
    }
  }

  lemma AddSlug(isWord: char -> bool, svcSlug: string, stopTexts: seq<string>, slugs: seq<string>, slug: string)
    requires |slugs| < |stopTexts| && NoRepeat(slugs)
    requires forall k :: 0 <= k < |slugs| ==> SlugAt(isWord, svcSlug, stopTexts, slugs, k)
    requires FirstFree(svcSlug + "--" + SlugOf(isWord, stopTexts[|slugs|]), Elements(slugs), slug)
    ensures NoRepeat(slugs + [slug]) && Elements(slugs + [slug]) == Elements(slugs) + {slug}
    ensures forall k :: 0 <= k < |slugs| + 1 ==> SlugAt(isWord, svcSlug, stopTexts, slugs + [slug], k)
  {
    var longer := slugs + [slug];
    assert slug !in Elements(slugs);
    hide FirstFree, SlugOf;
    forall k | 0 <= k < |longer| ensures SlugAt(isWord, svcSlug, stopTexts, longer, k) {
      if k < |slugs| {
        assert SlugAt(isWord, svcSlug, stopTexts, slugs, k);
        assert longer[..k] == slugs[..k];
      } else {
        assert longer[..k] == slugs;
      }
    }
  }

  /** Every stop slug carries its service's slug and a double dash in front. */
  lemma StopSlugPrefix(isWord: char -> bool, svcSlug: string, stopText: string, taken: set<string>, slug: string)
    requires FirstFree(StopBase(isWord, svcSlug, stopText), taken, slug)
    ensures svcSlug + "--" <= slug
  {
    hide SlugOf, Decimal;
    var base := StopBase(isWord, svcSlug, stopText);
    if base in taken {
      var n: nat :| 2 <= n && slug == Suffixed(base, n) && forall m: nat :: 2 <= m < n ==> Suffixed(base, m) in taken;
      assert slug[..|svcSlug| + 2] == svcSlug + "--";
    }
  }

  /** Stops of services with different shaped slugs never share a slug. */
  lemma ServicesNeverCollide(s: string, t: string, a: string, b: string)
    requires Shaped(s) && Shaped(t) && s != t
    requires s + "--" <= a && t + "--" <= b
    ensures a != b
  {
    if |s| == |t| {
      assert a[..|s|] == (s + "--")[..|s|] == s;
      assert b[..|t|] == (t + "--")[..|t|] == t;
    } else if |s| < |t| {
      ShorterPrefix(s, t, a, b);
    } else {
      ShorterPrefix(t, s, b, a);
    }
  }

  lemma ShorterPrefix(s: string, t: string, a: string, b: string)
    requires Shaped(t) && |s| < |t|
    requires s + "--" <= a && t + "--" <= b
    ensures a != b
  {
    var k := |s|;
    assert a[k] == (s + "--")[k] == '-' && a[k + 1] == (s + "--")[k + 1] == '-';
    assert b[k] == (t + "--")[k] == t[k];
    if k + 1 < |t| {
      assert b[k + 1] == (t + "--")[k + 1] == t[k + 1];
      assert !(t[k] == '-' && t[k + 1] == '-');
    }
  }
}
