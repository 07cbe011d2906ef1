/**
 * What the Goodreads and Letterboxd routes share: the `limit` query
 * parameter and the global `<item>([\s\S]*?)<\/item>` search that walks
 * the RSS document.
 */
module Feed {
  import opened Wrappers
  import opened Collections
  import JsNumber
  import Scan

  const MaxItems := 500

  /** `limitParam ? Math.min(parseInt(limitParam, 10) || 0, 500) : undefined`:
   *  NaN and zero fall back to zero, the cap turns positive infinity into
   *  500, and negative infinity stays. */
  function Limit(param: Option<string>): (r: Option<JsNumber.Num>)
    ensures r.None? <==> param.None? || param.value == ""
    ensures r.Some? ==> r.value == JsNumber.Infinity(true)
                        || (r.value.Finite? && r.value.exponent == 0 && r.value.mantissa <= MaxItems)
    ensures r.Some? && JsNumber.ParseInt(param.value) == JsNumber.NaN ==> r.value == JsNumber.Finite(0, 0)
    ensures r.Some? && JsNumber.ParseInt(param.value).Finite? ==>
              r.value == JsNumber.Finite(Min(JsNumber.ParseInt(param.value).mantissa, MaxItems), 0)
    ensures r.Some? && JsNumber.ParseInt(param.value) == JsNumber.Infinity(false) ==>
              r.value == JsNumber.Finite(MaxItems, 0)
    ensures r.Some? && JsNumber.ParseInt(param.value) == JsNumber.Infinity(true) ==>
              r.value == JsNumber.Infinity(true)
  {
    if param.None? || param.value == "" then None
    else
      var v := JsNumber.ParseInt(param.value);
      if v.NaN? then Some(JsNumber.Finite(0, 0))
      else if v.Finite? then Some(JsNumber.Finite(Min(v.mantissa, MaxItems), 0))
      else if v.negative then Some(JsNumber.Infinity(true))
      else Some(JsNumber.Finite(MaxItems, 0))
  }

  /** `limit != null ? items.slice(0, limit) : items`: `slice` truncates a
   *  finite end toward zero, reads NaN as zero, and an end of negative
   *  infinity keeps nothing. */
  function ApplyLimit<T(!new)>(items: seq<T>, limit: Option<JsNumber.Num>): (r: seq<T>)
    ensures r <= items
    ensures limit.None? ==> r == items
  {
    if limit.None? then items
    else
      var v := limit.value;
      if v.NaN? then []
      else if v.Infinity? then (if v.negative then [] else items)
      else Prefix(items, if v.mantissa >= 0 then JsNumber.Floor(v.mantissa, v.exponent)
                         else -(JsNumber.Floor(-v.mantissa, v.exponent) as int))
  }

  /** A limit that is absent or empty keeps everything; one that is not a
   *  number, or negative infinity, keeps nothing; otherwise at most
   *  `min(k, 500)` items are kept, and a negative `k` drops the last `-k`. */
  lemma LimitEffect<T(!new)>(items: seq<T>, param: Option<string>)
    ensures param.None? || param == Some("") ==> ApplyLimit(items, Limit(param)) == items
    ensures param.Some? && param.value != "" && JsNumber.ParseInt(param.value) == JsNumber.NaN ==>
              ApplyLimit(items, Limit(param)) == []
    ensures param.Some? && param.value != "" && JsNumber.ParseInt(param.value).Finite? ==>
              var k := JsNumber.ParseInt(param.value).mantissa;
              |ApplyLimit(items, Limit(param))| == if k >= 0 then Min(Min(k, MaxItems), |items|) else Max(|items| + k, 0)
    ensures param.Some? && param.value != "" && JsNumber.ParseInt(param.value) == JsNumber.Infinity(false) ==>
              |ApplyLimit(items, Limit(param))| == Min(MaxItems, |items|)
    ensures param.Some? && param.value != "" && JsNumber.ParseInt(param.value) == JsNumber.Infinity(true) ==>
              ApplyLimit(items, Limit(param)) == []
  {
  }

  /** The 500 cap holds whenever the parameter is not a negative number. */
  lemma LimitCap<T(!new)>(items: seq<T>, param: Option<string>)
    requires param.Some? && param.value != ""
    requires JsNumber.IntegerPrefix(param.value).Some? ==> JsNumber.IntegerPrefix(param.value).value >= 0
    ensures |ApplyLimit(items, Limit(param))| <= MaxItems
  {
  }

  /** `?limit=1` keeps at most one item. */
  lemma LimitOne<T(!new)>(items: seq<T>)
    ensures |ApplyLimit(items, Limit(Some("1")))| <= 1
  {
    assert JsNumber.DigitsValue("1") == 1 by {
      assert "1"[..0] == [];
    }
    JsNumber.DoubleRange();
    JsNumber.ParseIntOfDigits("1");
    LimitEffect(items, Some("1"));
  }

  const ItemOpen := "<item>"
  const ItemClose := "</item>"

  /** The contents of the item blocks found by repeated `exec` from
   *  `lastIndex = from`, in document order. */
  function Items(xml: string, from: nat): seq<string>
    decreases |xml| - from
  {
    match Scan.Lazy(xml, ItemOpen, ItemClose, from)
    case None => []
    case Some(m) => [xml[m.start..m.end]] + Items(xml, m.next)
  }

  /** An item's content never contains `</item>`. */
  lemma {:induction false} ItemsHaveNoClose(xml: string, from: nat)
    ensures forall i :: 0 <= i < |Items(xml, from)| ==> forall k: nat :: !Scan.OccursAt(Items(xml, from)[i], ItemClose, k)
    decreases |xml| - from
  {
    var m := Scan.Lazy(xml, ItemOpen, ItemClose, from);
    if m.Some? {
      var v := m.value;
      ItemsStep(xml, from, v);
      Scan.LazyLeftmost(xml, ItemOpen, ItemClose, from);
      Scan.CaptureHasNoClose(xml, ItemClose, v.start, v.end);
      ItemsHaveNoClose(xml, v.next);
    }
  }

  lemma ItemsNone(xml: string, from: nat)
    requires Scan.Lazy(xml, ItemOpen, ItemClose, from).None?
    ensures Items(xml, from) == []
  {
  }

  lemma ItemsStep(xml: string, from: nat, m: Scan.Match)
    requires Scan.Lazy(xml, ItemOpen, ItemClose, from) == Some(m)
    ensures from < m.next && m.start <= m.end <= |xml|
    ensures Items(xml, from) == [xml[m.start..m.end]] + Items(xml, m.next)
  {
  }

  /** One `<item>…</item>` block. */
  function Block(content: string): string {
    ItemOpen + content + ItemClose
  }

  function Blocks(contents: seq<string>): string {
    if contents == [] then "" else Block(contents[0]) + Blocks(contents[1..])
  }

  /** `</item>` cannot start inside `c`, not even running on into the
   *  closing tag that follows it. */
  predicate EndsOnlyAtClose(c: string) {
    forall k: nat :: k < |c| ==> !Scan.OccursAt(c + ItemClose, ItemClose, k)
  }

  /** A block at offset `|pre|` is the next match of a search from there. */
  lemma BlockAt(pre: string, c: string, rest: string)
    requires EndsOnlyAtClose(c)
    ensures Scan.Lazy(pre + Block(c) + rest, ItemOpen, ItemClose, |pre|)
            == Some(Scan.Match(|pre|, |pre| + 6, |pre| + 6 + |c|, |pre| + 13 + |c|))
  {
    var s := pre + Block(c) + rest;
    var q := |pre|;
    assert s == pre + ItemOpen + c + ItemClose + rest;
    Scan.OccursBefore2(pre, ItemOpen, c, ItemClose);
    Scan.OccursAtExtend(pre + ItemOpen + c + ItemClose, rest, ItemOpen, q);
    Scan.OccursBefore2(pre + ItemOpen + c, ItemClose, rest, "");
    assert s + "" == s;
    assert s == pre + ItemOpen + (c + ItemClose) + rest;
    forall k: nat | q + 6 <= k < q + 6 + |c| ensures !Scan.OccursAt(s, ItemClose, k) {
      Scan.OccursAtShift(pre + ItemOpen, c + ItemClose, rest, ItemClose, k - q - 6);
    }
    Scan.LazyAt(s, ItemOpen, ItemClose, q, q, q + 6 + |c|);
  }

  lemma MiddleSlice(a: string, b: string, c: string)
    ensures (a + b + c)[|a|..|a| + |b|] == b
  {
  }

  lemma ItemsAtEnd(s: string)
    ensures Items(s, |s|) == []
  {
  }

  lemma BlockStep(pre: string, c: string, rest: string)
    requires EndsOnlyAtClose(c)
    ensures Items(pre + Block(c) + rest, |pre|) == [c] + Items(pre + Block(c) + rest, |pre + Block(c)|)
  {
    var s := pre + Block(c) + rest;
    BlockAt(pre, c, rest);
    var m := Scan.Match(|pre|, |pre| + 6, |pre| + 6 + |c|, |pre| + 13 + |c|);
    ItemsStep(s, |pre|, m);
    assert s == pre + (ItemOpen + c + ItemClose) + rest;
    Regroup(pre, ItemOpen, c, ItemClose, rest);
    MiddleSlice(pre + ItemOpen, c, ItemClose + rest);
    assert s[m.start..m.end] == c;
    assert m.next == |pre + Block(c)|;
  }

  lemma Regroup(p: string, o: string, c: string, k: string, r: string)
    ensures p + (o + c + k) + r == (p + o) + c + (k + r)
  {
  }

  lemma {:induction false} ItemsOfBlocksAt(pre: string, contents: seq<string>)
    requires forall i :: 0 <= i < |contents| ==> EndsOnlyAtClose(contents[i])
    ensures Items(pre + Blocks(contents), |pre|) == contents
    decreases |contents|
  {
    if contents == [] {
      assert pre + Blocks(contents) == pre;
      ItemsAtEnd(pre);
    } else {
      var c := contents[0];
      var rest := Blocks(contents[1..]);
      var pre' := pre + Block(c);
      assert pre + Blocks(contents) == pre' + rest;
      BlockStep(pre, c, rest);
      ItemsOfBlocksAt(pre', contents[1..]);
      assert contents == [c] + contents[1..];
    }
  }

  /** Round trip: the blocks of a document written as consecutive
   *  `<item>` elements are read back in order. */
  lemma ItemsOfBlocks(contents: seq<string>)
    requires forall i :: 0 <= i < |contents| ==> EndsOnlyAtClose(contents[i])
    ensures Items(Blocks(contents), 0) == contents
  {
    ItemsOfBlocksAt("", contents);
    assert "" + Blocks(contents) == Blocks(contents);
  }
}
