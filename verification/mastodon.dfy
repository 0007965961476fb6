/** The plugin of lib/mastodon.go: its metric key prefix, and parseStats, which
    pairs the counters found on a server's "about/more" page with the fixed
    metric names by position.

    The HTML parse and the XPath query belong to a foreign library; the model
    takes their outcome as input: None when the page does not parse as HTML,
    Some(texts) with the text of every matched node in document order. */
module Mastodon {
  import opened Wrappers
  import opened CountParser

  /** The plugin's configuration; Go passes it by value to its methods. */
  datatype MastodonPlugin = MastodonPlugin(host: string, tempfile: string, prefix: string)

  /** The prefix of every metric key: the configured one, "mastodon" by default.
      The receiver is a copy, so the default never sticks to the plugin value. */
  function MetricKeyPrefix(m: MastodonPlugin): (r: string)
    ensures r != []
    ensures m.prefix != [] ==> r == m.prefix
    ensures m.prefix == [] ==> r == "mastodon"
  {
    var copy := if m.prefix == "" then m.(prefix := "mastodon") else m;
    copy.prefix
  }

  /** The metric names, in the order their counters appear on the page. */
  const MetricKeys: seq<string> := ["user_count", "toot_count", "instance_count"]

  function Min(a: nat, b: nat): nat { if a < b then a else b }

  ghost predicate Distinct(keys: seq<string>)
  {
    forall i, j :: 0 <= i < j < |keys| ==> keys[i] != keys[j]
  }

  /** The rest of the parseStats loop, from the map built so far, the keys not
      yet visited and the matches not yet consumed: stop when either runs out,
      fail on the first text that is not a number, store the count otherwise. */
  function ExtractFrom(stat: map<string, real>, keys: seq<string>, texts: seq<string>): (r: Result<map<string, real>>)
    ensures r.Success? ==> stat.Keys <= r.value.Keys
    ensures r.Failure? ==> r.error.MalformedNumber?
    decreases |keys|
  {
    if keys == [] || texts == [] then Success(stat)
    else
      match ParseCount(texts[0])
      case Failure(e) => Failure(e)
      case Success(v) => ExtractFrom(stat[keys[0] := v], keys[1..], texts[1..])
  }

  /** What parseStats returns for a page. */
  function Extract(doc: Option<seq<string>>): (r: Result<map<string, real>>)
    ensures r == Failure(UnparsableDocument) <==> doc.None?
  {
    match doc
    case None => Failure(UnparsableDocument)
    case Some(texts) => ExtractFrom(map[], MetricKeys, texts)
  }

  /** The match iterator of the XPath query: a cursor over the matched node
      texts, advanced one node at a time. */
  class MatchIter {
    const texts: seq<string>
    var pos: nat  // the number of nodes consumed so far

    ghost predicate Valid()
      reads this
    {
      pos <= |texts|
    }

    constructor (texts: seq<string>)
      ensures Valid() && this.texts == texts && pos == 0
    {
      this.texts := texts;
      pos := 0;
    }

    /** Moves to the next node; false when there is none left. */
    method Next() returns (more: bool)
      requires Valid()
      modifies this
      ensures Valid()
      ensures more == (old(pos) < |texts|)
      ensures pos == if more then old(pos) + 1 else old(pos)
    {
      more := pos < |texts|;
      if more {
        pos := pos + 1;
      }
    }

    /** The text of the current node. */
    function Node(): (t: string)
      reads this
      requires Valid() && 0 < pos
      ensures t in texts
    {
      texts[pos - 1]
    }
  }

  /** parseStats. The ghost result `consumed` counts the matches taken from the
      iterator: never more than there are metric names. */
  method ParseStats(doc: Option<seq<string>>) returns (r: Result<map<string, real>>, ghost consumed: nat)
    ensures r == Extract(doc)
    ensures doc.None? ==> r == Failure(UnparsableDocument) && consumed == 0
    ensures doc.Some? ==> consumed <= Min(|doc.value|, |MetricKeys|)
    ensures doc.Some? && r.Success? ==> consumed == Min(|doc.value|, |MetricKeys|)
  {
    var stat: map<string, real> := map[];
    if doc.None? {
      return Failure(UnparsableDocument), 0;
    }
    var iter := new MatchIter(doc.value);
    var keys := MetricKeys;
    var k := 0;
    while k < |keys|
      invariant k <= |keys| && k <= |doc.value|
      invariant iter.Valid() && iter.texts == doc.value && iter.pos == k
      invariant ExtractFrom(stat, keys[k..], doc.value[k..]) == Extract(doc)
    {
      var more := iter.Next();
      if !more {
        assert doc.value[k..] == [];
        break;
      }
      var count := ParseCount(iter.Node());
      ghost var rest := ExtractFrom(stat, keys[k..], doc.value[k..]);
      assert keys[k..][0] == keys[k] && keys[k..][1..] == keys[k + 1..];
      assert doc.value[k..][0] == iter.Node() && doc.value[k..][1..] == doc.value[k + 1..];
      if count.Failure? {
        assert rest == Failure(count.error);
        return Failure(count.error), iter.pos;
      }
      assert rest == ExtractFrom(stat[keys[k] := count.value], keys[k + 1..], doc.value[k + 1..]);
      stat := stat[keys[k] := count.value];
      k := k + 1;
    }
    return Success(stat), iter.pos;
  }

  // ---------------------------------------------------------------------------
  // The positional pairing, for any list of distinct keys

  /** The loop succeeds exactly when every match it consumes parses. */
  lemma {:induction false} ExtractFromSucceeds(stat: map<string, real>, keys: seq<string>, texts: seq<string>)
    ensures ExtractFrom(stat, keys, texts).Success? <==>
      forall i :: 0 <= i < Min(|keys|, |texts|) ==> ParseCount(texts[i]).Success?
    decreases |keys|
  {
    if keys != [] && texts != [] && ParseCount(texts[0]).Success? {
      var v := ParseCount(texts[0]).value;
      ExtractFromSucceeds(stat[keys[0] := v], keys[1..], texts[1..]);
      assert forall i :: 1 <= i < Min(|keys|, |texts|) ==> texts[i] == texts[1..][i - 1];
    }
  }

  /** On failure, the error is the one of the first consumed match that does
      not parse; matches before it all parsed. */
  lemma {:induction false} ExtractFromFirstError(stat: map<string, real>, keys: seq<string>, texts: seq<string>)
    ensures ExtractFrom(stat, keys, texts).Failure? ==>
      exists i :: 0 <= i < Min(|keys|, |texts|) &&
        ParseCount(texts[i]) == Failure(ExtractFrom(stat, keys, texts).error) &&
        forall j :: 0 <= j < i ==> ParseCount(texts[j]).Success?
    decreases |keys|
  {
    if keys == [] || texts == [] {
      return;
    }
    var r := ExtractFrom(stat, keys, texts);
    match ParseCount(texts[0])
    case Failure(e) =>
      assert r == Failure(e);
      assert ParseCount(texts[0]) == Failure(r.error);
    case Success(v) =>
      var stat', keys', texts' := stat[keys[0] := v], keys[1..], texts[1..];
      assert r == ExtractFrom(stat', keys', texts');
      ExtractFromFirstError(stat', keys', texts');
      if r.Failure? {
        var i :| 0 <= i < Min(|keys'|, |texts'|) &&
          ParseCount(texts'[i]) == Failure(r.error) &&
          forall j :: 0 <= j < i ==> ParseCount(texts'[j]).Success?;
        assert texts[i + 1] == texts'[i];
        forall j | 0 <= j < i + 1
          ensures ParseCount(texts[j]).Success?
        {
          if j > 0 {
            assert texts[j] == texts'[j - 1];
          }
        }
      }
  }

  /** On success, the map's keys are the old ones plus the key at the position
      of every consumed match. */
  lemma {:induction false} ExtractFromKeys(stat: map<string, real>, keys: seq<string>, texts: seq<string>)
    ensures var r := ExtractFrom(stat, keys, texts);
      r.Success? ==> r.value.Keys == stat.Keys + set i | 0 <= i < Min(|keys|, |texts|) :: keys[i]
    decreases |keys|
  {
    var n := Min(|keys|, |texts|);
    if keys != [] && texts != [] {
      match ParseCount(texts[0])
      case Failure(e) =>
      case Success(v) =>
        var keys' := keys[1..];
        ExtractFromKeys(stat[keys[0] := v], keys', texts[1..]);
        var r := ExtractFrom(stat[keys[0] := v], keys', texts[1..]);
        if r.Success? {
          var later := set i | 0 <= i < n - 1 :: keys'[i];
          var all := set i | 0 <= i < n :: keys[i];
          assert all == {keys[0]} + later by {
            forall x | x in later ensures x in all {
              var i :| 0 <= i < n - 1 && x == keys'[i];
              assert x == keys[i + 1];
            }
            forall x | x in all ensures x in {keys[0]} + later {
              var i :| 0 <= i < n && x == keys[i];
              if i > 0 {
                assert x == keys'[i - 1];
              }
            }
          }
        }
    }
  }

  /** On success, each consumed match is stored, parsed, under the key at its
      position, and every old entry whose key is not among those is kept. */
  lemma {:induction false} ExtractFromValues(stat: map<string, real>, keys: seq<string>, texts: seq<string>)
    requires Distinct(keys)
    ensures var r := ExtractFrom(stat, keys, texts);
      r.Success? ==>
        forall i :: 0 <= i < Min(|keys|, |texts|) ==>
          keys[i] in r.value && Success(r.value[keys[i]]) == ParseCount(texts[i])
    ensures var r := ExtractFrom(stat, keys, texts);
      r.Success? ==>
        forall k :: k in stat && (forall i :: 0 <= i < Min(|keys|, |texts|) ==> keys[i] != k) ==>
          k in r.value && r.value[k] == stat[k]
    decreases |keys|
  {
    var n := Min(|keys|, |texts|);
    if keys != [] && texts != [] {
      match ParseCount(texts[0])
      case Failure(e) =>
      case Success(v) =>
        var stat', keys', texts' := stat[keys[0] := v], keys[1..], texts[1..];
        assert Distinct(keys') by {
          forall i, j | 0 <= i < j < |keys'| ensures keys'[i] != keys'[j] {
            assert keys'[i] == keys[i + 1] && keys'[j] == keys[j + 1];
          }
        }
        ExtractFromValues(stat', keys', texts');
        var r := ExtractFrom(stat', keys', texts');
        if r.Success? {
          var m := r.value;
          assert keys[0] in m && m[keys[0]] == v by {
            forall i | 0 <= i < n - 1 ensures keys'[i] != keys[0] {
              assert keys'[i] == keys[i + 1];
            }
          }
          forall i | 1 <= i < n
            ensures keys[i] in m && Success(m[keys[i]]) == ParseCount(texts[i])
          {
            assert keys[i] == keys'[i - 1] && texts[i] == texts'[i - 1];
          }
          forall k | k in stat && (forall i :: 0 <= i < n ==> keys[i] != k)
            ensures k in m && m[k] == stat[k]
          {
            assert keys[0] != k;
            forall i | 0 <= i < n - 1 ensures keys'[i] != k {
              assert keys'[i] == keys[i + 1];
            }
          }
        }
    }
  }

  /** Matches after the last key are never looked at. */
  lemma {:induction false} ExtractFromIgnoresExtra(stat: map<string, real>, keys: seq<string>, texts: seq<string>)
    ensures ExtractFrom(stat, keys, texts) == ExtractFrom(stat, keys, texts[..Min(|keys|, |texts|)])
    decreases |keys|
  {
    var n := Min(|keys|, |texts|);
    var short := texts[..n];
    if keys != [] && texts != [] {
      assert short[0] == texts[0];
      assert short[1..] == texts[1..][..Min(|keys| - 1, |texts| - 1)];
      match ParseCount(texts[0])
      case Failure(e) =>
      case Success(v) =>
        ExtractFromIgnoresExtra(stat[keys[0] := v], keys[1..], texts[1..]);
        assert ExtractFrom(stat, keys, short) == ExtractFrom(stat[keys[0] := v], keys[1..], short[1..]);
    }
  }

  // ---------------------------------------------------------------------------
  // parseStats on a page

  lemma MetricKeysDistinct()
    ensures Distinct(MetricKeys)
  {
  }

  /** The result is a map exactly when every one of the first three matches
      (or fewer, when the page has fewer) parses; a missing match is no error. */
  lemma StatsSucceedsIff(texts: seq<string>)
    ensures Extract(Some(texts)).Success? <==>
      forall i :: 0 <= i < Min(|texts|, 3) ==> ParseCount(texts[i]).Success?
  {
    ExtractFromSucceeds(map[], MetricKeys, texts);
  }

  /** A present but malformed match fails the whole call, with the error of the
      first such match, even when earlier counts were already stored. */
  lemma StatsFirstError(texts: seq<string>)
    ensures Extract(Some(texts)).Failure? ==>
      Extract(Some(texts)).error.MalformedNumber? &&
      exists i :: 0 <= i < Min(|texts|, 3) &&
        ParseCount(texts[i]) == Failure(Extract(Some(texts)).error) &&
        forall j :: 0 <= j < i ==> ParseCount(texts[j]).Success?
  {
    ExtractFromFirstError(map[], MetricKeys, texts);
  }

  /** On success the keys are the first min(|texts|, 3) metric names, each
      holding the parse of the match at its position. */
  lemma StatsContents(texts: seq<string>)
    ensures Extract(Some(texts)).Success? ==>
      Extract(Some(texts)).value.Keys == set i | 0 <= i < Min(|texts|, 3) :: MetricKeys[i]
    ensures Extract(Some(texts)).Success? ==>
      forall i :: 0 <= i < Min(|texts|, 3) ==>
        MetricKeys[i] in Extract(Some(texts)).value &&
        Success(Extract(Some(texts)).value[MetricKeys[i]]) == ParseCount(texts[i])
  {
    MetricKeysDistinct();
    ExtractFromKeys(map[], MetricKeys, texts);
    ExtractFromValues(map[], MetricKeys, texts);
  }

  /** The first n metric names are n different names. */
  lemma KeyPrefix(n: nat)
    requires n <= 3
    ensures |set j | 0 <= j < n :: MetricKeys[j]| == n
    ensures forall i :: 0 <= i < 3 ==> (MetricKeys[i] in (set j | 0 <= j < n :: MetricKeys[j]) <==> i < n)
  {
    var ks := set j | 0 <= j < n :: MetricKeys[j];
    assert MetricKeys[0] in ks <==> 0 < n;
    assert MetricKeys[1] in ks <==> 1 < n;
    assert MetricKeys[2] in ks <==> 2 < n;
    if n == 0 {
      assert ks == {};
    } else if n == 1 {
      assert ks == {"user_count"};
    } else if n == 2 {
      assert ks == {"user_count", "toot_count"};
    } else {
      assert ks == {"user_count", "toot_count", "instance_count"};
    }
  }

  /** A metric name is missing from a successful result exactly when the page
      has no match at its position; the map has one entry per match, at most three. */
  lemma StatsMissing(texts: seq<string>, i: nat)
    requires i < 3
    ensures Extract(Some(texts)).Success? ==>
      (MetricKeys[i] !in Extract(Some(texts)).value <==> |texts| <= i)
    ensures Extract(Some(texts)).Success? ==> |Extract(Some(texts)).value| == Min(|texts|, 3)
  {
    var r := Extract(Some(texts));
    if r.Success? {
      StatsContents(texts);
      KeyPrefix(Min(|texts|, 3));
      assert r.value.Keys == set j | 0 <= j < Min(|texts|, 3) :: MetricKeys[j];
    }
  }

  /** Matches beyond the third never change the result. */
  lemma StatsIgnoresExtra(texts: seq<string>, extra: seq<string>)
    requires |texts| >= 3
    ensures Extract(Some(texts + extra)) == Extract(Some(texts))
  {
    ExtractFromIgnoresExtra(map[], MetricKeys, texts + extra);
    ExtractFromIgnoresExtra(map[], MetricKeys, texts);
    assert (texts + extra)[..3] == texts[..3];
  }

  lemma StatsNoMatches()
    ensures Extract(Some([])) == Success(map[])
  {
  }

  /** A page with exactly one well-formed counter: only user_count is reported. */
  lemma StatsOneMatch(a: string)
    requires ParseCount(a).Success?
    ensures Extract(Some([a])) == Success(map["user_count" := ParseCount(a).value])
  {
    var m := map["user_count" := ParseCount(a).value];
    assert ExtractFrom(map[], MetricKeys, [a]) == ExtractFrom(m, MetricKeys[1..], []);
  }

  /** A page with three well-formed counters: all three are reported. */
  lemma StatsThreeMatches(a: string, b: string, c: string)
    requires ParseCount(a).Success? && ParseCount(b).Success? && ParseCount(c).Success?
    ensures Extract(Some([a, b, c])) == Success(map[
      "user_count" := ParseCount(a).value,
      "toot_count" := ParseCount(b).value,
      "instance_count" := ParseCount(c).value])
  {
    var t := [a, b, c];
    var m1 := map["user_count" := ParseCount(a).value];
    var m2 := m1["toot_count" := ParseCount(b).value];
    var m3 := m2["instance_count" := ParseCount(c).value];
    assert ExtractFrom(map[], MetricKeys, t) == ExtractFrom(m1, MetricKeys[1..], t[1..]);
    assert ExtractFrom(m1, MetricKeys[1..], t[1..]) == ExtractFrom(m2, MetricKeys[2..], t[2..]);
    assert ExtractFrom(m2, MetricKeys[2..], t[2..]) == Success(m3);
  }

  /** A malformed second counter fails the call although the first one parsed. */
  lemma StatsSecondMalformed(a: string, b: string, rest: seq<string>)
    requires ParseCount(a).Success? && ParseCount(b).Failure?
    ensures Extract(Some([a, b] + rest)) == Failure(ParseCount(b).error)
  {
    var t := [a, b] + rest;
    var m1 := map["user_count" := ParseCount(a).value];
    assert t[0] == a && t[1..][0] == b;
    assert ExtractFrom(map[], MetricKeys, t) == ExtractFrom(m1, MetricKeys[1..], t[1..]);
  }

  /** The sample page: "12,345", "678" and "9". */
  lemma StatsSamplePage()
    ensures Extract(Some(["12,345", "678", "9"])) ==
      Success(map["user_count" := 12345.0, "toot_count" := 678.0, "instance_count" := 9.0])
  {
    ParseCountExampleThousands();
    ParseCountExampleHundreds();
    ParseCountExampleUnits();
    StatsThreeMatches("12,345", "678", "9");
  }
}
