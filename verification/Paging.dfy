/** Byte- and count-bounded pages, the admission rule that the journal reader,
    the history reader and the index reader share. */
module Paging {
  import opened Basics

  /** What a reader finds at one place: a value with its accounted size, a text
      of known size that does not parse, a row refused on its raw size alone, or
      a row that cannot be used at all. */
  datatype Item<+T> = Item(value: T, size: nat) | Garbled(size: nat) | Oversized | Broken

  /** How many leading items one page takes; None is the reader's error return.
      With `peek` the reader looks at the item after a full page. */
  function Fill<T>(items: seq<Item<T>>, limit: nat, max: nat, used: nat, peek: bool): (count: Option<nat>)
    ensures count.Some? ==> count.value <= |items| && forall i :: 0 <= i < count.value ==> items[i].Item?
  {
    if items == [] || (limit == 0 && !peek) then Some(0)
    else match items[0]
      case Broken => None
      case Oversized => Some(0)
      case Garbled(size) => if limit == 0 || SaturatingAdd(used, size) > max then Some(0) else None
      case Item(_, size) =>
        if limit == 0 || SaturatingAdd(used, size) > max then Some(0)
        else match Fill(items[1..], limit - 1, max, SaturatingAdd(used, size), peek)
          case None => None
          case Some(n) => Some(n + 1)
  }

  /** A page that takes nothing although items are waiting is an error: an
      oversized item is reported, never skipped. */
  function Page<T>(items: seq<Item<T>>, limit: nat, max: nat, peek: bool): (count: Option<nat>)
    ensures count.Some? ==> count.value <= |items| && forall i :: 0 <= i < count.value ==> items[i].Item?
  {
    match Fill(items, limit, max, 0, peek)
    case None => None
    case Some(n) => if n == 0 && items != [] then None else Some(n)
  }

  /** The values a page of n items delivers. */
  function Prefix<T>(items: seq<Item<T>>, n: nat): (values: seq<T>)
    requires n <= |items| && forall i :: 0 <= i < n ==> items[i].Item?
    ensures |values| == n && forall i :: 0 <= i < n ==> values[i] == items[i].value
  {
    seq(n, i requires 0 <= i < n => items[i].value)
  }

  /** A reader part-way through a page: it has taken `page`, the values of the
      first items, and what is left decides the rest. */
  ghost predicate Progress<T>(items: seq<Item<T>>, limit: nat, max: nat, peek: bool, page: seq<T>, used: nat) {
    && |page| <= |items|
    && |page| <= limit
    && (forall i :: 0 <= i < |page| ==> items[i].Item? && page[i] == items[i].value)
    && Fill(items, limit, max, 0, peek) == Shift(Fill(items[|page|..], limit - |page|, max, used, peek), |page|)
  }

  function Shift(count: Option<nat>, more: nat): Option<nat> {
    if count.None? then None else Some(count.value + more)
  }

  lemma ProgressStart<T>(items: seq<Item<T>>, limit: nat, max: nat, peek: bool)
    ensures Progress(items, limit, max, peek, [], 0)
  {
    assert items[0..] == items;
  }

  lemma ProgressStep<T>(items: seq<Item<T>>, limit: nat, max: nat, peek: bool, page: seq<T>, used: nat)
    requires Progress(items, limit, max, peek, page, used)
    requires |page| < limit && |page| < |items| && items[|page|].Item?
    requires SaturatingAdd(used, items[|page|].size) <= max
    ensures Progress(items, limit, max, peek, page + [items[|page|].value], SaturatingAdd(used, items[|page|].size))
  {
    assert items[|page|..][0] == items[|page|];
    assert items[|page|..][1..] == items[|page| + 1..];
  }

  /** The page is complete when nothing is left, or nothing more is looked at. */
  lemma ProgressDone<T>(items: seq<Item<T>>, limit: nat, max: nat, peek: bool, page: seq<T>, used: nat)
    requires Progress(items, limit, max, peek, page, used) && limit > 0
    requires |page| == |items| || (|page| == limit && !peek)
    ensures Page(items, limit, max, peek) == Some(|page|) && Prefix(items, |page|) == page
  {
  }

  /** The page ends at an item it looks at and does not take: cut short there,
      or an error when the item is unusable or the page would be empty. */
  lemma ProgressStop<T>(items: seq<Item<T>>, limit: nat, max: nat, peek: bool, page: seq<T>, used: nat)
    requires Progress(items, limit, max, peek, page, used) && limit > 0
    requires |page| < |items| && (|page| < limit || peek)
    ensures var item := items[|page|];
            var full := |page| == limit;
            var tooLarge := item.Oversized? || ((item.Item? || item.Garbled?) && (full || SaturatingAdd(used, item.size) > max));
            && (tooLarge && page != [] ==> Page(items, limit, max, peek) == Some(|page|) && Prefix(items, |page|) == page)
            && (tooLarge && page == [] ==> Page(items, limit, max, peek) == None)
            && (!tooLarge && !item.Item? ==> Page(items, limit, max, peek) == None)
  {
    assert items[|page|..][0] == items[|page|];
  }

  ghost predicate Readable<T>(items: seq<Item<T>>) {
    forall i :: 0 <= i < |items| ==> items[i].Item?
  }

  ghost function Sum<T>(items: seq<Item<T>>): nat
    requires Readable(items)
  {
    if items == [] then 0 else items[0].size + Sum(items[1..])
  }

  ghost function Values<T>(items: seq<Item<T>>): (values: seq<T>)
    requires Readable(items)
    ensures |values| == |items|
    ensures forall i :: 0 <= i < |items| ==> values[i] == items[i].value
  {
    seq(|items|, i requires 0 <= i < |items| => items[i].value)
  }

  /** The first k items are usable, within the count and within the bytes. The
      machine's largest byte bound is never exceeded by a saturating sum. */
  ghost predicate Fits<T>(items: seq<Item<T>>, k: nat, limit: nat, max: nat, used: nat) {
    && k <= |items|
    && k <= limit
    && Readable(items[..k])
    && (max == USIZE_MAX || used + Sum(items[..k]) <= max)
  }

  lemma SumOfPrefix<T>(items: seq<Item<T>>, k: nat)
    requires 0 < k <= |items| && Readable(items[..k])
    ensures items[0].Item? && Readable(items[1..][..k - 1])
    ensures Sum(items[..k]) == items[0].size + Sum(items[1..][..k - 1])
  {
    assert items[..k][0] == items[0];
    assert items[..k][1..] == items[1..][..k - 1];
  }

  /** A page is the longest prefix that fits. */
  lemma {:induction false} FillIsLongest<T>(items: seq<Item<T>>, limit: nat, max: nat, used: nat, peek: bool)
    requires used <= max <= USIZE_MAX
    requires Fill(items, limit, max, used, peek).Some?
    ensures Fits(items, Fill(items, limit, max, used, peek).value, limit, max, used)
    ensures forall k: nat :: Fits(items, k, limit, max, used) ==> k <= Fill(items, limit, max, used, peek).value
    decreases |items|
  {
    var n := Fill(items, limit, max, used, peek).value;
    if n > 0 {
      var next := SaturatingAdd(used, items[0].size);
      FillIsLongest(items[1..], limit - 1, max, next, peek);
      assert items[..n][1..] == items[1..][..n - 1];
      assert Readable(items[..n]) by {
        forall i | 0 <= i < n ensures items[i].Item? {
          if i > 0 { assert items[i] == items[1..][..n - 1][i - 1]; }
        }
      }
      SumOfPrefix(items, n);
    }
    forall k: nat | Fits(items, k, limit, max, used) ensures k <= n {
      if k > 0 {
        assert items[..k][0] == items[0];
        SumOfPrefix(items, k);
        if n > 0 {
          assert Fits(items[1..], k - 1, limit - 1, max, SaturatingAdd(used, items[0].size));
        }
      }
    }
  }

  /** The item a reader cannot pass once it has taken k items. */
  ghost predicate Blocks<T>(items: seq<Item<T>>, k: nat, limit: nat, max: nat, used: nat, peek: bool) {
    && k < |items|
    && Fits(items, k, limit, max, used)
    && (|| (items[k].Broken? && (k < limit || peek))
        || (items[k].Garbled? && k < limit && (max == USIZE_MAX || used + Sum(items[..k]) + items[k].size <= max)))
  }

  lemma BlocksShift<T>(items: seq<Item<T>>, k: nat, limit: nat, max: nat, used: nat, peek: bool)
    requires used <= max <= USIZE_MAX && limit > 0
    requires items != [] && items[0].Item? && SaturatingAdd(used, items[0].size) <= max
    ensures Blocks(items, k + 1, limit, max, used, peek) <==>
            Blocks(items[1..], k, limit - 1, max, SaturatingAdd(used, items[0].size), peek)
  {
    if k + 1 < |items| {
      assert items[1..][k] == items[k + 1];
      assert items[..k + 1][0] == items[0];
      assert items[..k + 1][1..] == items[1..][..k];
      assert Readable(items[..k + 1]) <==> Readable(items[1..][..k]) by {
        var whole, rest := items[..k + 1], items[1..][..k];
        assert forall i :: 0 <= i < k ==> rest[i] == whole[i + 1];
        assert forall i :: 1 <= i < k + 1 ==> whole[i] == rest[i - 1];
      }
    }
  }

  /** A reader fails exactly when, after a prefix that fits, the next item it
      looks at is unusable. */
  lemma {:induction false} FillFails<T>(items: seq<Item<T>>, limit: nat, max: nat, used: nat, peek: bool)
    requires used <= max <= USIZE_MAX
    ensures Fill(items, limit, max, used, peek).None? <==>
            exists k: nat :: Blocks(items, k, limit, max, used, peek)
    decreases |items|
  {
    if items != [] {
      assert Fits(items, 0, limit, max, used);
      if items[0].Item? && limit > 0 && SaturatingAdd(used, items[0].size) <= max {
        var next := SaturatingAdd(used, items[0].size);
        var rest, fewer: nat := items[1..], limit - 1;
        FillFails(rest, fewer, max, next, peek);
        if k: nat :| Blocks(rest, k, fewer, max, next, peek) {
          BlocksShift(items, k, limit, max, used, peek);
        }
        if k: nat :| Blocks(items, k, limit, max, used, peek) {
          BlocksShift(items, k - 1, limit, max, used, peek);
        }
      } else {
        forall k: nat | Blocks(items, k, limit, max, used, peek) ensures k == 0 {
          if k > 0 { SumOfPrefix(items, k); }
        }
        assert Fill(items, limit, max, used, peek).None? <==> Blocks(items, 0, limit, max, used, peek);
      }
    }
  }

  /** On usable items a page fails exactly when the first item alone is too large. */
  lemma ReadablePage<T>(items: seq<Item<T>>, limit: nat, max: nat, peek: bool)
    requires Readable(items) && 0 < limit && max <= USIZE_MAX
    ensures Page(items, limit, max, peek).None? <==> items != [] && max < USIZE_MAX && items[0].size > max
  {
    FillFails(items, limit, max, 0, peek);
    assert forall k: nat :: !Blocks(items, k, limit, max, 0, peek);
  }
}
