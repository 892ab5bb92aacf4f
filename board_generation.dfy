/**
 * Board generation of the memory game: the coin records are filtered by a
 * half-open year range, up to `pairs` of them are sampled, every sampled coin
 * yields two image references (its front, then its front or its back depending
 * on the difficulty flag), and the image references are shuffled.
 *
 * The two random steps (`_.sample`) are not random here: the caller supplies
 * the indices the sampler picked. A sample of `n` from `xs` is any sequence of
 * `min(n, |xs|)` distinct positions of `xs`; the shuffle is a sample of the
 * whole list, which is how the JavaScript code obtains it.
 */
module BoardGeneration {
  import opened Wrappers

  /** A coin record of the image data: its identifier, its year and the
      directory part of its image files. */
  datatype Coin = Coin(id: string, year: int, magic: string)

  /** The surrounding part of an image URL (host, query parameters), kept opaque:
      the image reference is `before + source path + after`. */
  datatype UrlWrap = UrlWrap(before: string, after: string)

  // ---------------------------------------------------------------------------
  // The century filter

  /** The predicate returned by the century filter: `lo <= year < hi`. */
  predicate InRange(lo: int, hi: int, c: Coin)
  {
    lo <= c.year < hi
  }

  /** `_.filter(imageData, getCenturyFilter())`. */
  function CenturyFilter(coins: seq<Coin>, lo: int, hi: int): (r: seq<Coin>)
    ensures forall k :: 0 <= k < |r| ==> InRange(lo, hi, r[k])
    ensures |r| <= |coins|
  {
    if coins == [] then []
    else (if InRange(lo, hi, coins[0]) then [coins[0]] else []) + CenturyFilter(coins[1..], lo, hi)
  }

  /** `xs` is `ys` with some elements left out, the rest kept in order. */
  predicate IsSubsequence<T(==)>(xs: seq<T>, ys: seq<T>)
    decreases |xs| + |ys|
  {
    xs == [] ||
    (ys != [] &&
     ((xs[0] == ys[0] && IsSubsequence(xs[1..], ys[1..])) || IsSubsequence(xs, ys[1..])))
  }

  /** The filter keeps exactly the records in range, each as often as it occurs,
      in their original order. */
  lemma {:induction false} CenturyFilterKeepsExactlyInRange(coins: seq<Coin>, lo: int, hi: int)
    ensures forall c :: multiset(CenturyFilter(coins, lo, hi))[c] ==
                        if InRange(lo, hi, c) then multiset(coins)[c] else 0
    ensures IsSubsequence(CenturyFilter(coins, lo, hi), coins)
  {
    if coins != [] {
      var rest := CenturyFilter(coins[1..], lo, hi);
      CenturyFilterKeepsExactlyInRange(coins[1..], lo, hi);
      assert coins == [coins[0]] + coins[1..];
      if InRange(lo, hi, coins[0]) {
        assert CenturyFilter(coins, lo, hi) == [coins[0]] + rest;
        assert ([coins[0]] + rest)[1..] == rest;
      } else {
        assert CenturyFilter(coins, lo, hi) == rest;
        SubsequenceOfTail(rest, coins);
      }
    }
  }

  lemma SubsequenceOfTail<T>(xs: seq<T>, ys: seq<T>)
    requires ys != [] && IsSubsequence(xs, ys[1..])
    ensures IsSubsequence(xs, ys)
  {
  }

  // ---------------------------------------------------------------------------
  // Board size

  /** `rows * cols / 2`: the number of pairs on a board of the chosen size.
      The size menu offers boards with an even number of tiles. */
  function NumberOfPairs(rows: nat, cols: nat): (pairs: nat)
    requires (rows * cols) % 2 == 0
    ensures 2 * pairs == rows * cols
  {
    rows * cols / 2
  }

  // ---------------------------------------------------------------------------
  // Image references

  /** The directory holding the coins' data. */
  const DataRoot: string := "file:///opt/digiverso/kenom_viewer/data/"

  /** The directory of a record's media below its data directory. */
  const MediaDir: string := "/media/"

  /** The tag that starts every record folder. */
  const RecordTag: string := "record_"

  /** The folder and file name stem of a coin's images. */
  function RecordFolder(c: Coin): string
  {
    RecordTag + c.id
  }

  /** The file name suffix of the chosen side: `_rs` for the back, `_vs` for the front. */
  function SideSuffix(useBack: bool): string
  {
    if useBack then "_rs" else "_vs"
  }

  /** The local path of the image of one side of a coin. */
  function SourcePath(c: Coin, useBack: bool): string
  {
    var prefix := DataRoot + c.magic + MediaDir;
    var folderName := RecordFolder(c);
    var fileName := folderName + SideSuffix(useBack) + ".jpg";
    prefix + folderName + "/" + fileName
  }

  /** The image reference of one side of a coin, its source path inside the opaque wrapper. */
  function ImageUrl(w: UrlWrap, c: Coin, useBack: bool): string
  {
    w.before + SourcePath(c, useBack) + w.after
  }

  /** The two image references of every coin, in order: front, then front or back. */
  function PairUrls(w: UrlWrap, coins: seq<Coin>, useBack: bool): (urls: seq<string>)
    ensures |urls| == 2 * |coins|
    ensures forall k :: 0 <= k < |coins| ==>
              urls[2 * k] == ImageUrl(w, coins[k], false) && urls[2 * k + 1] == ImageUrl(w, coins[k], useBack)
  {
    if coins == [] then []
    else [ImageUrl(w, coins[0], false), ImageUrl(w, coins[0], useBack)] + PairUrls(w, coins[1..], useBack)
  }

  // ---------------------------------------------------------------------------
  // Sampling and shuffling

  /** `picks` is a possible choice of `_.sample(xs, n)` on a list of length `len`:
      `min(n, len)` distinct positions. */
  predicate IsSample(len: nat, n: nat, picks: seq<nat>)
  {
    && |picks| == Min(n, len)
    && (forall k :: 0 <= k < |picks| ==> picks[k] < len)
    && (forall j, k :: 0 <= j < k < |picks| ==> picks[j] != picks[k])
  }

  /** The elements of `xs` at the positions `picks`, in that order. */
  function Select<T>(xs: seq<T>, picks: seq<nat>): (r: seq<T>)
    requires forall k :: 0 <= k < |picks| ==> picks[k] < |xs|
  {
    seq(|picks|, k requires 0 <= k < |picks| => xs[picks[k]])
  }

  /** `_.sample(xs, n)` with the sampler's choice `picks`. */
  function Sample<T>(xs: seq<T>, n: nat, picks: seq<nat>): (r: seq<T>)
    requires IsSample(|xs|, n, picks)
    ensures |r| == Min(n, |xs|)
  {
    Select(xs, picks)
  }

  /** A sample takes distinct positions, so every element occurs in it at most as
      often as in the input; a sample of the whole list is a permutation of it. */
  lemma SampleIsSubMultiset<T>(xs: seq<T>, n: nat, picks: seq<nat>)
    requires IsSample(|xs|, n, picks)
    ensures multiset(Sample(xs, n, picks)) <= multiset(xs)
    ensures n >= |xs| ==> multiset(Sample(xs, n, picks)) == multiset(xs)
  {
    SelectDistinct(xs, picks);
  }

  /** A length bound: distinct positions below `n` are at most `n` many. */
  lemma {:induction false} DistinctBelowIsShort(picks: seq<nat>, n: nat)
    requires forall k :: 0 <= k < |picks| ==> picks[k] < n
    requires forall j, k :: 0 <= j < k < |picks| ==> picks[j] != picks[k]
    ensures |picks| <= n
  {
    if picks != [] {
      assert picks[0] < n;
      var m := n - 1;
      if j :| 0 <= j < |picks| && picks[j] == m {
        var rest := picks[..j] + picks[j + 1..];
        forall k | 0 <= k < |rest| ensures rest[k] < m {
          if k < j { assert rest[k] == picks[k]; } else { assert rest[k] == picks[k + 1]; }
        }
        forall a, b | 0 <= a < b < |rest| ensures rest[a] != rest[b] {
          var a' := if a < j then a else a + 1;
          var b' := if b < j then b else b + 1;
          assert rest[a] == picks[a'] && rest[b] == picks[b'];
        }
        DistinctBelowIsShort(rest, m);
      } else {
        DistinctBelowIsShort(picks, m);
      }
    }
  }

  /** Selecting positions that all lie in a prefix of `xs` reads the same elements. */
  lemma SelectInPrefix<T>(xs: seq<T>, m: nat, ps: seq<nat>)
    requires m <= |xs|
    requires forall k :: 0 <= k < |ps| ==> ps[k] < m
    ensures Select(xs[..m], ps) == Select(xs, ps)
  {
  }

  /** Taking one pick out of a selection takes its element out of the multiset. */
  lemma SelectWithout<T>(xs: seq<T>, picks: seq<nat>, j: nat, rest: seq<nat>)
    requires forall k :: 0 <= k < |picks| ==> picks[k] < |xs|
    requires j < |picks| && rest == picks[..j] + picks[j + 1..]
    ensures forall k :: 0 <= k < |rest| ==> rest[k] < |xs|
    ensures multiset(Select(xs, picks)) == multiset(Select(xs, rest)) + multiset{xs[picks[j]]}
  {
    forall k | 0 <= k < |rest| ensures rest[k] < |xs| {
      if k < j { assert rest[k] == picks[k]; } else { assert rest[k] == picks[k + 1]; }
    }
    assert Select(xs, picks) == Select(xs, picks[..j]) + [xs[picks[j]]] + Select(xs, picks[j + 1..]);
    assert Select(xs, rest) == Select(xs, picks[..j]) + Select(xs, picks[j + 1..]);
  }

  /** The heart of the two sampling facts, by induction on the length of `xs`. */
  lemma {:induction false} SelectDistinct<T>(xs: seq<T>, picks: seq<nat>)
    requires forall k :: 0 <= k < |picks| ==> picks[k] < |xs|
    requires forall j, k :: 0 <= j < k < |picks| ==> picks[j] != picks[k]
    ensures multiset(Select(xs, picks)) <= multiset(xs)
    ensures |picks| == |xs| ==> multiset(Select(xs, picks)) == multiset(xs)
  {
    if xs == [] {
      DistinctBelowIsShort(picks, 0);
      assert Select(xs, picks) == [];
    } else {
      var m := |xs| - 1;
      var init := xs[..m];
      assert xs == init + [xs[m]];
      if j :| 0 <= j < |picks| && picks[j] == m {
        var rest := picks[..j] + picks[j + 1..];
        forall k | 0 <= k < |rest| ensures rest[k] < m {
          if k < j { assert rest[k] == picks[k]; } else { assert rest[k] == picks[k + 1]; }
        }
        forall a, b | 0 <= a < b < |rest| ensures rest[a] != rest[b] {
          var a' := if a < j then a else a + 1;
          var b' := if b < j then b else b + 1;
          assert rest[a] == picks[a'] && rest[b] == picks[b'];
        }
        SelectDistinct(init, rest);
        SelectInPrefix(xs, m, rest);
        SelectWithout(xs, picks, j, rest);
      } else {
        forall k | 0 <= k < |picks| ensures picks[k] < m {
        }
        DistinctBelowIsShort(picks, m);
        SelectDistinct(init, picks);
        SelectInPrefix(xs, m, picks);
      }
    }
  }

  // ---------------------------------------------------------------------------
  // The whole generator

  /** The coins that end up on the board: a sample of `pairs` filtered coins. */
  function SelectedCoins(coins: seq<Coin>, lo: int, hi: int, pairs: nat, picks: seq<nat>): (selected: seq<Coin>)
    requires IsSample(|CenturyFilter(coins, lo, hi)|, pairs, picks)
    ensures |selected| == Min(pairs, |CenturyFilter(coins, lo, hi)|)
  {
    Sample(CenturyFilter(coins, lo, hi), pairs, picks)
  }

  /** The sampler's two choices fit the lengths they are applied to. */
  predicate ValidChoices(coins: seq<Coin>, lo: int, hi: int, pairs: nat, picks: seq<nat>, order: seq<nat>)
  {
    IsSample(|CenturyFilter(coins, lo, hi)|, pairs, picks) && IsSample(2 * |picks|, 2 * |picks|, order)
  }

  /** `createShuffledImageUrls`: `pairs` is `getNumberOfPairs()`, `picks` the
      choice of the first sample, `order` the choice of the shuffle. Too few
      coins in range is not an error: the sampler then takes all of them. */
  function ShuffledImageUrls(w: UrlWrap, coins: seq<Coin>, lo: int, hi: int, pairs: nat, useBack: bool,
                             picks: seq<nat>, order: seq<nat>): (urls: seq<string>)
    requires ValidChoices(coins, lo, hi, pairs, picks, order)
    ensures |urls| == 2 * Min(pairs, |CenturyFilter(coins, lo, hi)|)
  {
    var urls := PairUrls(w, SelectedCoins(coins, lo, hi, pairs, picks), useBack);
    Sample(urls, |urls|, order)
  }

  /** The generated list holds exactly the two image references of every
      selected coin; the selected coins are drawn from distinct positions of
      the records in range. */
  lemma GeneratedUrls(w: UrlWrap, coins: seq<Coin>, lo: int, hi: int, pairs: nat, useBack: bool,
                      picks: seq<nat>, order: seq<nat>)
    requires ValidChoices(coins, lo, hi, pairs, picks, order)
    ensures multiset(ShuffledImageUrls(w, coins, lo, hi, pairs, useBack, picks, order))
            == multiset(PairUrls(w, SelectedCoins(coins, lo, hi, pairs, picks), useBack))
    ensures multiset(SelectedCoins(coins, lo, hi, pairs, picks)) <= multiset(CenturyFilter(coins, lo, hi))
    ensures forall k :: 0 <= k < |SelectedCoins(coins, lo, hi, pairs, picks)| ==>
              InRange(lo, hi, SelectedCoins(coins, lo, hi, pairs, picks)[k])
  {
    var filtered := CenturyFilter(coins, lo, hi);
    var selected := SelectedCoins(coins, lo, hi, pairs, picks);
    var urls := PairUrls(w, selected, useBack);
    assert |urls| == 2 * |picks|;
    SampleIsSubMultiset(urls, |urls|, order);
    SampleIsSubMultiset(filtered, pairs, picks);
    forall k | 0 <= k < |selected| ensures InRange(lo, hi, selected[k]) {
      assert selected[k] == filtered[picks[k]];
    }
  }
}
