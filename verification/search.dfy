/** The header search box (`initSearch` in public/js/main.js): on every input event the
    query is lower-cased and, when it is at least two UTF-16 code units long, matched as
    a substring against a fixed list of site sections. */
module SiteSearch {
  import opened Text

  const Entries: seq<string> := [
    "UK Summer Camps",
    "Ireland Summer Camps",
    "Malta Summer Camps",
    "Scotland Summer Camps",
    "Contact Information",
    "Testimonials"
  ]

  /** The six entries differ pairwise; their lengths already do. */
  lemma EntriesDistinct()
    ensures Distinct(Entries)
  {
    forall i, j | 0 <= i < j < |Entries| ensures Entries[i] != Entries[j] {
      assert |Entries[i]| != |Entries[j]|;
    }
  }

  /** An entry matches when its lower-cased form contains the (already lower-cased) query. */
  predicate Matches(item: string, query: string) {
    Contains(LowerStr(item), query)
  }

  /** `a` occurs in `items` at an earlier position than `b`. */
  ghost predicate Precedes(a: string, b: string, items: seq<string>) {
    exists p, q :: 0 <= p < q < |items| && items[p] == a && items[q] == b
  }

  /** Every two elements of `r` occur in `items` in the same order, at distinct positions. */
  ghost predicate InOrder(r: seq<string>, items: seq<string>) {
    forall i, j :: 0 <= i < j < |r| ==> Precedes(r[i], r[j], items)
  }

  /** No entry occurs twice. */
  predicate Distinct(items: seq<string>) {
    forall i, j :: 0 <= i < j < |items| ==> items[i] != items[j]
  }

  lemma InOrderShift(r: seq<string>, items: seq<string>)
    requires |items| > 0 && InOrder(r, items[1..])
    ensures InOrder(r, items)
  {
    forall i, j | 0 <= i < j < |r| ensures Precedes(r[i], r[j], items) {
      assert Precedes(r[i], r[j], items[1..]);
      var p, q :| 0 <= p < q < |items[1..]| && items[1..][p] == r[i] && items[1..][q] == r[j];
      assert items[p + 1] == r[i] && items[q + 1] == r[j];
    }
  }

  lemma InOrderCons(r: seq<string>, items: seq<string>)
    requires |items| > 0 && InOrder(r, items[1..])
    requires forall y :: y in r ==> y in items[1..]
    ensures InOrder([items[0]] + r, items)
  {
    var s := [items[0]] + r;
    forall i, j | 0 <= i < j < |s| ensures Precedes(s[i], s[j], items) {
      assert s[j] == r[j - 1];
      if i == 0 {
        assert r[j - 1] in r;
        var q :| 0 <= q < |items[1..]| && items[1..][q] == s[j];
        assert items[0] == s[i] && items[q + 1] == s[j];
      } else {
        assert s[i] == r[i - 1];
        assert Precedes(r[i - 1], r[j - 1], items[1..]);
        var p, q :| 0 <= p < q < |items[1..]| && items[1..][p] == r[i - 1] && items[1..][q] == r[j - 1];
        assert items[p + 1] == s[i] && items[q + 1] == s[j];
      }
    }
  }

  /** An in-order selection from a list without repetitions has no repetitions either. */
  lemma InOrderDistinct(r: seq<string>, items: seq<string>)
    requires InOrder(r, items) && Distinct(items)
    ensures Distinct(r)
  {
    forall i, j | 0 <= i < j < |r| ensures r[i] != r[j] {
      assert Precedes(r[i], r[j], items);
      var p, q :| 0 <= p < q < |items| && items[p] == r[i] && items[q] == r[j];
    }
  }

  /** The matching items, in list order. */
  function KeepMatching(items: seq<string>, query: string): (r: seq<string>)
    ensures |r| <= |items|
    ensures forall x :: x in r <==> x in items && Matches(x, query)
    ensures InOrder(r, items)
  {
    if |items| == 0 then []
    else
      var rest := KeepMatching(items[1..], query);
      InOrderShift(rest, items);
      if Matches(items[0], query) then
        InOrderCons(rest, items);
        [items[0]] + rest
      else
        rest
  }

  /** The filter keeps the list order: it distributes over concatenation, so its result
      is the in-order subsequence of the matching items. */
  lemma {:induction false} KeepMatchingAppend(a: seq<string>, b: seq<string>, query: string)
    ensures KeepMatching(a + b, query) == KeepMatching(a, query) + KeepMatching(b, query)
  {
    if |a| > 0 {
      assert (a + b)[1..] == a[1..] + b;
      KeepMatchingAppend(a[1..], b, query);
    } else {
      assert a + b == b;
    }
  }

  /** The entries shown for what the user typed; the result panel is visible exactly
      when this is non-empty. */
  function Search(input: string): (r: seq<string>)
    ensures Utf16Length(input) < 2 ==> r == []
    ensures Utf16Length(input) >= 2 ==>
      forall x :: x in r <==> x in Entries && Contains(LowerStr(x), LowerStr(input))
    ensures InOrder(r, Entries) && Distinct(r)
  {
    var query := LowerStr(input);
    LowerKeepsUtf16Length(input);
    EntriesDistinct();
    InOrderDistinct(KeepMatching(Entries, query), Entries);
    if Utf16Length(query) < 2 then [] else KeepMatching(Entries, query)
  }

  /** The search ignores the case of ASCII letters in the query. */
  lemma SearchCaseInsensitive(input: string)
    ensures Search(LowerStr(input)) == Search(input)
  {
    LowerStrIdempotent(input);
    LowerKeepsUtf16Length(input);
  }

}
