/**
 * The list helpers `commaSep1(rule)` (one `rule`, then any number of
 * `"," rule`) and `commaSep(rule)` (optionally one such list), over any
 * token type: `sep` plays the comma and `item` the rule.
 */
module CommaSep {

  /**
   * `seq(rule, repeat(seq(",", rule)))`: one item, or one item, a separator and the rest.
   * This is the exact recognizer; `MatchCommaSep1` below is a cheaper one that agrees with
   * it when no item can hold the separator.
   */
  predicate IsCommaSep1<T(==)>(s: seq<T>, sep: T, item: seq<T> -> bool)
    decreases |s|
  {
    || item(s)
    || exists k :: 0 <= k < |s| && s[k] == sep && item(s[..k]) && IsCommaSep1(s[k + 1..], sep, item)
  }

  /** `optional(commaSep1(rule))`. */
  predicate IsCommaSep<T(==)>(s: seq<T>, sep: T, item: seq<T> -> bool)
  {
    s == [] || IsCommaSep1(s, sep, item)
  }

  /** The items, separated by `sep`. */
  function Join<T>(items: seq<seq<T>>, sep: T): seq<T>
    requires |items| > 0
  {
    if |items| == 1 then items[0] else items[0] + [sep] + Join(items[1..], sep)
  }

  predicate AllItems<T>(items: seq<seq<T>>, item: seq<T> -> bool)
  {
    forall i :: 0 <= i < |items| ==> item(items[i])
  }

  /** Any one or more items, joined by the separator, form a `commaSep1`. */
  lemma {:induction false} JoinIsCommaSep1<T>(items: seq<seq<T>>, sep: T, item: seq<T> -> bool)
    requires |items| > 0 && AllItems(items, item)
    ensures IsCommaSep1(Join(items, sep), sep, item)
  {
    if |items| > 1 {
      var s := Join(items, sep);
      var k := |items[0]|;
      JoinIsCommaSep1(items[1..], sep, item);
      assert s[..k] == items[0];
      assert s[k + 1..] == Join(items[1..], sep);
      assert s[k] == sep && item(s[..k]) && IsCommaSep1(s[k + 1..], sep, item);
    }
  }

  /** Every `commaSep1` is one or more items joined by the separator. */
  lemma {:induction false} CommaSep1Items<T>(s: seq<T>, sep: T, item: seq<T> -> bool) returns (items: seq<seq<T>>)
    requires IsCommaSep1(s, sep, item)
    ensures |items| > 0 && AllItems(items, item) && Join(items, sep) == s
    decreases |s|
  {
    if item(s) {
      items := [s];
    } else {
      var k :| 0 <= k < |s| && s[k] == sep && item(s[..k]) && IsCommaSep1(s[k + 1..], sep, item);
      var rest := CommaSep1Items(s[k + 1..], sep, item);
      items := [s[..k]] + rest;
      assert items[1..] == rest;
      assert s == s[..k] + [sep] + s[k + 1..];
    }
  }

  /** `commaSep` is exactly the empty text or one or more items joined by the separator. */
  lemma CommaSepIff<T>(s: seq<T>, sep: T, item: seq<T> -> bool)
    ensures IsCommaSep(s, sep, item) <==>
      s == [] || exists items :: |items| > 0 && AllItems(items, item) && Join(items, sep) == s
  {
    if IsCommaSep1(s, sep, item) {
      var items := CommaSep1Items(s, sep, item);
    }
    if s != [] && exists items :: |items| > 0 && AllItems(items, item) && Join(items, sep) == s {
      var items :| |items| > 0 && AllItems(items, item) && Join(items, sep) == s;
      JoinIsCommaSep1(items, sep, item);
    }
  }

  // ---------------------------------------------------------------------
  // Cutting at separators
  // ---------------------------------------------------------------------

  /** The pieces of `s` between separators, left to right. */
  function Split<T(==)>(s: seq<T>, sep: T): (pieces: seq<seq<T>>)
    ensures |pieces| > 0
    decreases |s|
  {
    if sep !in s then [s]
    else
      var k := FirstSep(s, sep);
      [s[..k]] + Split(s[k + 1..], sep)
  }

  /** The position of the first separator. */
  function FirstSep<T(==)>(s: seq<T>, sep: T): (k: nat)
    requires sep in s
    ensures k < |s| && s[k] == sep && sep !in s[..k]
  {
    if s[0] == sep then 0
    else
      var k := FirstSep(s[1..], sep);
      assert s[..k + 1] == [s[0]] + s[1..][..k];
      k + 1
  }

  /** No piece holds a separator, and joining the pieces gives `s` back. */
  lemma {:induction false} SplitJoin<T>(s: seq<T>, sep: T)
    ensures Join(Split(s, sep), sep) == s
    ensures forall i :: 0 <= i < |Split(s, sep)| ==> sep !in Split(s, sep)[i]
    decreases |s|
  {
    if sep in s {
      var k := FirstSep(s, sep);
      var rest := Split(s[k + 1..], sep);
      SplitJoin(s[k + 1..], sep);
      var p := Split(s, sep);
      assert p[1..] == rest;
      assert s == s[..k] + [sep] + s[k + 1..];
      forall i | 0 <= i < |p|
        ensures sep !in p[i]
      {
        if i > 0 {
          assert p[i] == rest[i - 1];
        }
      }
    }
  }

  /** Joining items without separators and cutting again gives the items back. */
  lemma {:induction false} JoinSplit<T>(items: seq<seq<T>>, sep: T)
    requires |items| > 0
    requires forall i :: 0 <= i < |items| ==> sep !in items[i]
    ensures Split(Join(items, sep), sep) == items
  {
    var s := Join(items, sep);
    if |items| == 1 {
    } else {
      var k := |items[0]|;
      assert s[k] == sep;
      assert s[..k] == items[0];
      assert FirstSep(s, sep) == k;
      assert s[k + 1..] == Join(items[1..], sep);
      JoinSplit(items[1..], sep);
      assert [items[0]] + items[1..] == items;
    }
  }

  /** The matcher: every piece between separators is an item. */
  function MatchCommaSep1<T(==)>(s: seq<T>, sep: T, item: seq<T> -> bool): bool
  {
    AllItems(Split(s, sep), item)
  }

  /** What the matcher accepts is a `commaSep1`. */
  lemma MatchCommaSep1Sound<T>(s: seq<T>, sep: T, item: seq<T> -> bool)
    requires MatchCommaSep1(s, sep, item)
    ensures IsCommaSep1(s, sep, item)
  {
    SplitJoin(s, sep);
    JoinIsCommaSep1(Split(s, sep), sep, item);
  }

  /** When no item holds the separator, the matcher accepts every `commaSep1`. */
  lemma MatchCommaSep1Complete<T>(s: seq<T>, sep: T, item: seq<T> -> bool)
    requires forall x :: item(x) ==> sep !in x
    requires IsCommaSep1(s, sep, item)
    ensures MatchCommaSep1(s, sep, item)
  {
    var items := CommaSep1Items(s, sep, item);
    JoinSplit(items, sep);
  }

  /** Without that condition the matcher can be too strict: a lone item `a,b` is a `commaSep1`, but its pieces are not items. */
  lemma SeparatorInItem()
    ensures IsCommaSep1("a,b", ',', (x: string) => x == "a,b")
    ensures !MatchCommaSep1("a,b", ',', (x: string) => x == "a,b")
  {
    var item := (x: string) => x == "a,b";
    assert FirstSep("a,b", ',') == 1;
    assert "a,b"[..1] == "a" && "a,b"[2..] == "b";
    assert ',' !in "b";
    assert Split("b", ',') == ["b"];
    assert Split("a,b", ',') == ["a", "b"];
    assert !item(Split("a,b", ',')[0]);
  }
}
