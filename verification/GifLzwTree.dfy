/** The dictionary tree of the LZW encoder, and why it answers as a dictionary of strings does. */
module GifLzwTree {
  import opened Bytes
  import opened GifLzwSpec

  /** The child of a code's node for one more index: the code of the extended phrase, or 0. */
  function Link(depth: nat, table: seq<Phrase>, code: nat, v: byte): nat
    requires Depth(depth)
  {
    if Known(depth, table, code) && Meaning(depth, table, code) + [v] in table then
      First(depth) + IndexOf(table, Meaning(depth, table, code) + [v])
    else 0
  }

  ghost predicate TreeOf(depth: nat, table: seq<Phrase>, tree: seq<seq<int>>)
    requires Depth(depth)
  {
    && |tree| == MAX_CODE + 1
    && (forall c :: 0 <= c < |tree| ==> |tree[c]| == 256)
    && (forall c, v: byte :: 0 <= c < |tree| ==> tree[c][v as int] == Link(depth, table, c, v))
  }

  lemma {:induction false} PrefixLearnt(table: seq<Phrase>, phrase: Phrase)
    requires Dictionary(table) && phrase in table
    ensures |phrase| >= 2
    ensures |phrase| == 2 || phrase[..|phrase| - 1] in table
  {
    var n := |table| - 1;
    if phrase != table[n] {
      assert table == table[..n] + [table[n]];
      PrefixLearnt(table[..n], phrase);
    }
  }

  lemma {:induction false} Distinct(table: seq<Phrase>, i: nat, j: nat)
    requires Dictionary(table) && i < j < |table|
    ensures table[i] != table[j]
  {
    var n := |table| - 1;
    if j < n {
      Distinct(table[..n], i, j);
    } else {
      assert table[i] in table[..n];
    }
  }

  lemma MeaningInjective(depth: nat, table: seq<Phrase>, c: nat, k: nat)
    requires Depth(depth) && Dictionary(table)
    requires Known(depth, table, c) && Known(depth, table, k)
    requires Meaning(depth, table, c) == Meaning(depth, table, k)
    ensures c == k
  {
    Pow2Small(depth);
    if c < Pow2(depth) {
      if k >= Pow2(depth) {
        PrefixLearnt(table, table[k - First(depth)]);
      } else {
        assert [c as byte][0] == [k as byte][0];
      }
    } else if k < Pow2(depth) {
      PrefixLearnt(table, table[c - First(depth)]);
    } else if c < k {
      Distinct(table, c - First(depth), k - First(depth));
    } else if k < c {
      Distinct(table, k - First(depth), c - First(depth));
    }
  }

  lemma {:induction false} IndexOfFirst(table: seq<Phrase>, i: nat)
    requires Dictionary(table) && i < |table|
    ensures IndexOf(table, table[i]) == i
  {
    var j := IndexOf(table, table[i]);
    if j < i {
      Distinct(table, j, i);
    }
  }

  /** Learning a phrase sets exactly one link. */
  lemma LinkAfterLearning(depth: nat, table: seq<Phrase>, run: Phrase, v: byte, code: nat, c: nat, w: byte)
    requires Depth(depth) && Dictionary(table)
    requires Known(depth, table, code) && Meaning(depth, table, code) == run && run + [v] !in table
    ensures Link(depth, table + [run + [v]], c, w)
         == if c == code && w == v then First(depth) + |table| else Link(depth, table, c, w)
  {
    var bigger := table + [run + [v]];
    assert Dictionary(bigger) by { RunKnown(depth, table, run, code); DictionaryGrows(table, run, v); }
    if Known(depth, table, c) {
      var phrase := Meaning(depth, table, c);
      assert Meaning(depth, bigger, c) == phrase;
      if phrase + [w] in table {
        var i := IndexOf(table, phrase + [w]);
        assert bigger[i] == phrase + [w];
        IndexOfFirst(bigger, i);
      } else if phrase + [w] == run + [v] {
        assert phrase == (phrase + [w])[..|phrase|] == run;
        assert w == (phrase + [w])[|phrase|];
        MeaningInjective(depth, table, c, code);
        assert bigger[|table|] == run + [v];
        IndexOfFirst(bigger, |table|);
      }
    } else if c == First(depth) + |table| {
      NewLeaf(table, run, v, w);
    }
  }

  lemma RunKnown(depth: nat, table: seq<Phrase>, run: Phrase, code: nat)
    requires Depth(depth) && Dictionary(table)
    requires Known(depth, table, code) && Meaning(depth, table, code) == run
    ensures run != [] && (|run| == 1 || run in table)
  {
    if code >= Pow2(depth) {
      PrefixLearnt(table, run);
    }
  }

  lemma NewLeaf(table: seq<Phrase>, run: Phrase, v: byte, w: byte)
    requires Dictionary(table) && run != [] && run + [v] !in table
    ensures run + [v] + [w] !in table + [run + [v]]
  {
    var phrase := run + [v] + [w];
    assert phrase[..|phrase| - 1] == run + [v];
    assert phrase != run + [v];
    if phrase in table {
      PrefixLearnt(table, phrase);
    }
  }

  /** A node without links. */
  function NoLinks(): (links: seq<int>)
    ensures |links| == 256 && forall v :: 0 <= v < 256 ==> links[v] == 0
  {
    seq(256, _ => 0)
  }

  lemma TreeCleared(depth: nat, tree: seq<seq<int>>)
    requires Depth(depth) && |tree| == MAX_CODE + 1 && forall c :: 0 <= c < |tree| ==> tree[c] == NoLinks()
    ensures TreeOf(depth, [], tree)
  {
  }

  lemma TreeGrows(depth: nat, table: seq<Phrase>, tree: seq<seq<int>>, run: Phrase, v: byte, code: nat)
    requires Depth(depth) && Dictionary(table) && TreeOf(depth, table, tree)
    requires Known(depth, table, code) && Meaning(depth, table, code) == run && run + [v] !in table
    requires code < |tree|
    ensures TreeOf(depth, table + [run + [v]],
                   tree[code := tree[code][v as int := First(depth) + |table|]])
  {
    var bigger := table + [run + [v]];
    var tree' := tree[code := tree[code][v as int := First(depth) + |table|]];
    forall c, w: byte | 0 <= c < |tree'|
      ensures tree'[c][w as int] == Link(depth, bigger, c, w)
    {
      LinkAfterLearning(depth, table, run, v, code, c, w);
    }
  }

  /** What the tree says about the current run is what the dictionary of strings says. */
  lemma Lookup(depth: nat, e: Encoder, tree: seq<seq<int>>, v: byte)
    requires Depth(depth) && EncoderOk(depth, e) && TreeOf(depth, e.table, tree)
    ensures var code := CodeOf(depth, e.table, e.run);
      && code < |tree|
      && Known(depth, e.table, code)
      && Meaning(depth, e.table, code) == e.run
      && tree[code][v as int]
        == (if e.run + [v] in e.table then CodeOf(depth, e.table, e.run + [v]) else 0)
  {
    Pow2Small(depth);
    var code := CodeOf(depth, e.table, e.run);
    if |e.run| == 1 {
      assert e.run == [e.run[0]];
    }
    assert tree[code][v as int] == Link(depth, e.table, code, v);
  }
}
