/** Attribute name lists as the system call returns them: names each followed by a NUL byte. */
module XattrList {
  import opened Base

  predicate NulFree(n: Bytes) {
    forall i :: 0 <= i < |n| ==> n[i] != 0
  }

  /** The pieces between NUL bytes; a list with k NULs has k + 1 pieces. */
  function Split(s: Bytes): (ps: seq<Bytes>)
    ensures |ps| > 0 && forall j :: 0 <= j < |ps| ==> NulFree(ps[j])
  {
    if s == [] then [[]]
    else
      var rest := Split(s[1..]);
      if s[0] == 0 then [[]] + rest else [[s[0]] + rest[0]] + rest[1..]
  }

  function NonEmpty(ps: seq<Bytes>): seq<Bytes> {
    if ps == [] then []
    else NonEmpty(ps[..|ps| - 1]) + if ps[|ps| - 1] != [] then [ps[|ps| - 1]] else []
  }

  /** The names a list spells. */
  function Names(list: Bytes): seq<Bytes> {
    NonEmpty(Split(list))
  }

  function Blob(names: seq<Bytes>): Bytes {
    if names == [] then [] else Blob(names[..|names| - 1]) + names[|names| - 1] + [0]
  }

  /** The extra names, in order, that are not empty, not known, and not listed earlier. */
  function Unseen(known: seq<Bytes>, extra: seq<Bytes>): seq<Bytes> {
    if extra == [] then []
    else
      var init, last := extra[..|extra| - 1], extra[|extra| - 1];
      Unseen(known, init) + if last != [] && last !in known && last !in init then [last] else []
  }

  /** The names after every extra one that is not there yet is appended. */
  function Appended(names: seq<Bytes>, extra: seq<Bytes>): seq<Bytes> {
    if extra == [] then names
    else
      var before := Appended(names, extra[..|extra| - 1]);
      if extra[|extra| - 1] in before then before else before + [extra[|extra| - 1]]
  }

  lemma OneMorePiece(ps: seq<Bytes>, i: nat)
    requires i < |ps|
    ensures NonEmpty(ps[..i + 1]) == NonEmpty(ps[..i]) + if ps[i] != [] then [ps[i]] else []
  {
    assert ps[..i + 1][..i] == ps[..i];
  }

  lemma OneMoreExtra(names: seq<Bytes>, extra: seq<Bytes>, i: nat)
    requires i < |extra|
    ensures
      var before := Appended(names, extra[..i]);
      Appended(names, extra[..i + 1]) == if extra[i] in before then before else before + [extra[i]]
  {
    assert extra[..i + 1][..i] == extra[..i];
  }

  lemma OneMoreName(names: seq<Bytes>, i: nat)
    requires i < |names|
    ensures Blob(names[..i + 1]) == Blob(names[..i]) + names[i] + [0]
  {
    assert names[..i + 1][..i] == names[..i];
  }

  method MergeXattrLists(realList: Bytes, extra: seq<Bytes>) returns (blob: Bytes)
    ensures blob == Blob(Appended(Names(realList), extra))
  {
    var names: seq<Bytes> := [];
    var pieces := Split(realList);
    for i := 0 to |pieces|
      invariant names == NonEmpty(pieces[..i])
    {
      OneMorePiece(pieces, i);
      if pieces[i] != [] {
        names := names + [pieces[i]];
      }
    }
    assert pieces[..|pieces|] == pieces;
    for i := 0 to |extra|
      invariant names == Appended(Names(realList), extra[..i])
    {
      OneMoreExtra(Names(realList), extra, i);
      if extra[i] !in names {
        names := names + [extra[i]];
      }
    }
    assert extra[..|extra|] == extra;
    blob := [];
    for i := 0 to |names|
      invariant blob == Blob(names[..i])
    {
      OneMoreName(names, i);
      blob := blob + names[i] + [0];
    }
    assert names[..|names|] == names;
  }

  // ----- What the merged list spells -----

  lemma {:induction false} SplitAfterName(n: Bytes, rest: Bytes)
    requires NulFree(n)
    ensures Split(n + [0] + rest) == [n] + Split(rest)
    decreases |n|
  {
    var s := n + [0] + rest;
    if n == [] {
      assert s[1..] == rest;
    } else {
      assert s[1..] == n[1..] + [0] + rest;
      SplitAfterName(n[1..], rest);
      assert [n[0]] + n[1..] == n;
    }
  }

  lemma BlobThen(init: seq<Bytes>, last: Bytes, rest: Bytes)
    ensures Blob(init + [last]) + rest == Blob(init) + (last + [0] + rest)
  {
    assert (init + [last])[..|init|] == init;
  }

  lemma Regroup(a: seq<Bytes>, b: seq<Bytes>, c: seq<Bytes>)
    ensures (a + b) + c == a + (b + c)
  {
  }

  lemma {:induction false} SplitBlob(names: seq<Bytes>, rest: Bytes)
    requires forall j :: 0 <= j < |names| ==> NulFree(names[j])
    ensures Split(Blob(names) + rest) == names + Split(rest)
    decreases |names|
  {
    if names == [] {
      assert [] + rest == rest;
    } else {
      var init, last := names[..|names| - 1], names[|names| - 1];
      assert names == init + [last];
      BlobThen(init, last, rest);
      SplitBlob(init, last + [0] + rest);
      SplitAfterName(last, rest);
      Regroup(init, [last], Split(rest));
    }
  }

  lemma {:induction false} NonEmptyAppend(a: seq<Bytes>, b: seq<Bytes>)
    ensures NonEmpty(a + b) == NonEmpty(a) + NonEmpty(b)
    decreases |b|
  {
    if b == [] {
      assert a + b == a;
    } else {
      var init := b[..|b| - 1];
      assert (a + b)[..|a + b| - 1] == a + init;
      NonEmptyAppend(a, init);
    }
  }

  lemma {:induction false} NonEmptyHas(ps: seq<Bytes>, n: Bytes)
    ensures n in NonEmpty(ps) <==> n in ps && n != []
    decreases |ps|
  {
    if ps != [] {
      NonEmptyHas(ps[..|ps| - 1], n);
    }
  }

  lemma {:induction false} AppendedHas(names: seq<Bytes>, extra: seq<Bytes>, n: Bytes)
    ensures n in Appended(names, extra) <==> n in names || n in extra
    decreases |extra|
  {
    if extra != [] {
      AppendedHas(names, extra[..|extra| - 1], n);
    }
  }

  lemma {:induction false} NonEmptyAppended(names: seq<Bytes>, extra: seq<Bytes>)
    ensures NonEmpty(Appended(names, extra)) == NonEmpty(names) + Unseen(names, extra)
    decreases |extra|
  {
    if extra != [] {
      var init, last := extra[..|extra| - 1], extra[|extra| - 1];
      NonEmptyAppended(names, init);
      AppendedHas(names, init, last);
      NonEmptyAppend(Appended(names, init), [last]);
      assert NonEmpty([last]) == if last != [] then [last] else [];
    }
  }

  lemma {:induction false} NonEmptyTwice(ps: seq<Bytes>)
    ensures NonEmpty(NonEmpty(ps)) == NonEmpty(ps)
    decreases |ps|
  {
    if ps != [] {
      var init, last := ps[..|ps| - 1], ps[|ps| - 1];
      NonEmptyTwice(init);
      if last != [] {
        NonEmptyAppend(NonEmpty(init), [last]);
        assert NonEmpty([last]) == [last];
      } else {
        assert NonEmpty(ps) == NonEmpty(init);
      }
    }
  }

  lemma {:induction false} AppendedNulFree(names: seq<Bytes>, extra: seq<Bytes>)
    requires forall j :: 0 <= j < |names| ==> NulFree(names[j])
    requires forall j :: 0 <= j < |extra| ==> NulFree(extra[j])
    ensures forall n :: n in Appended(names, extra) ==> NulFree(n)
  {
    forall n | n in Appended(names, extra)
      ensures NulFree(n)
    {
      AppendedHas(names, extra, n);
    }
  }

  /**
   The merged list spells the real names in order, then every extra name that is not empty and
   not already there, once each, in first-seen order. Extra names come from C strings, so none
   contains a NUL.
   */
  lemma MergedNames(realList: Bytes, extra: seq<Bytes>)
    requires forall j :: 0 <= j < |extra| ==> NulFree(extra[j])
    ensures Names(Blob(Appended(Names(realList), extra))) == Names(realList) + Unseen(Names(realList), extra)
  {
    var names := Names(realList);
    forall j | 0 <= j < |names|
      ensures NulFree(names[j])
    {
      assert names[j] in names;
      NonEmptyHas(Split(realList), names[j]);
    }
    AppendedNulFree(names, extra);
    var merged := Appended(names, extra);
    SplitBlob(merged, []);
    assert Blob(merged) + [] == Blob(merged);
    assert Split([]) == [[]];
    NonEmptyAppend(merged, [[]]);
    assert NonEmpty([[]]) == [];
    NonEmptyAppended(names, extra);
    NonEmptyTwice(Split(realList));
  }

  /** Unseen lists each wanted name exactly once. */
  lemma {:induction false} UnseenExact(known: seq<Bytes>, extra: seq<Bytes>, n: Bytes)
    ensures n in Unseen(known, extra) <==> n in extra && n != [] && n !in known
    ensures multiset(Unseen(known, extra))[n] <= 1
    decreases |extra|
  {
    if extra != [] {
      UnseenExact(known, extra[..|extra| - 1], n);
    }
  }

  /** What Unseen lists from the first extra names comes first: the order is that of first sight. */
  lemma {:induction false} UnseenInOrder(known: seq<Bytes>, extra: seq<Bytes>, i: nat)
    requires i <= |extra|
    ensures Unseen(known, extra[..i]) <= Unseen(known, extra)
    decreases |extra|
  {
    if i < |extra| {
      assert extra[..|extra| - 1][..i] == extra[..i];
      UnseenInOrder(known, extra[..|extra| - 1], i);
    } else {
      assert extra[..i] == extra;
    }
  }
}
