/** rotate-docs-key: every ".enc" file is decrypted under the old key, re-encrypted into a sibling temp
    file, read back, and renamed over the original. The process may crash before any system call. */
module KeyRotation {
  import opened Options
  import Text

  datatype Path = Path(name: string)
  datatype Key = Key(id: nat)
  datatype Plain = Plain(text: seq<bv8>)

  // What a file holds. AES-GCM is ideal: a sealed file opens under the key that sealed it and no other.
  datatype Content = Sealed(key: Key, nonce: nat, plain: Plain) | Unreadable(length: nat)

  function Open(c: Content, k: Key): Option<Plain> {
    if c.Sealed? && c.key == k then Some(c.plain) else None
  }

  function TempOf(p: Path): Path {
    Path(p.name + ".rotating")
  }

  // WalkDir visits the paths that end in ".enc".
  predicate IsDocument(p: Path) {
    Text.HasSuffix(p.name, ".enc")
  }

  lemma TempIsNoDocument(p: Path)
    ensures !IsDocument(TempOf(p))
  {
    var t := TempOf(p).name;
    assert |t| >= 9 && t[|t| - 1] == 'g';
    assert t[|t| - 4..][3] == 'g' && ".enc"[3] == 'c';
  }

  /** The fate of one system call. `Corrupts`: a read or write that reports success but delivers or stores other
      bytes; of any other call it is a failure. `Dies`: the process is gone right before the call. */
  datatype Fate = Succeeds | CallFails | Corrupts | Dies

  ghost predicate AllWell(fates: seq<Fate>) {
    forall i :: 0 <= i < |fates| ==> fates[i] == Succeeds
  }

  // The call at which rotateFile leaves the temp file behind or removes it, once it has created one; 8 if none.
  function StopsAt(fates: seq<Fate>): (i: nat)
    requires |fates| == 8
    ensures 3 <= i <= 8
  {
    var intact := fates[3] == Succeeds && fates[4] == Succeeds;
    if fates[3] == Dies || fates[3] == CallFails then 3
    else if fates[4] == Dies || fates[4] == CallFails then 4
    else if fates[5] != Succeeds then 5
    else if fates[6] != Succeeds || !intact then 6
    else if fates[7] != Succeeds then 7 else 8
  }

  // A temp file stays where the process dies, and where the rename fails.
  predicate LeavesTemp(fates: seq<Fate>)
    requires |fates| == 8
  {
    var i := StopsAt(fates);
    i < 8 && (fates[i] == Dies || i == 7)
  }

  class Store {
    var files: map<Path, Content>

    constructor (files: map<Path, Content>)
      ensures this.files == files
    {
      this.files := files;
    }

    // Every document other than `p` is as it was in `before`.
    ghost predicate OtherDocumentsKept(before: map<Path, Content>, p: Path)
      reads this
    {
      forall q :: IsDocument(q) && q != p ==> (q in files <==> q in before) && (q in files ==> files[q] == before[q])
    }

    /** rotateFile. `fates` are those of its eight calls in order: read the file, draw a nonce, open the temp file,
        write the nonce, write the ciphertext, close, read back, rename. */
    method RotateFile(p: Path, oldKey: Key, newKey: Key, nonce: nat, fates: seq<Fate>) returns (ok: bool)
      requires |fates| == 8 && IsDocument(p)
      modifies this
      ensures OtherDocumentsKept(old(files), p)
      ensures p in files <==> p in old(files)
      ensures ok <==> p in old(files) && Open(old(files)[p], oldKey).Some? && AllWell(fates)
      ensures ok ==> files[p] == Sealed(newKey, nonce, Open(old(files)[p], oldKey).value)
      ensures !ok && p in files ==> files[p] == old(files)[p]
      ensures forall q :: q != p && q != TempOf(p) ==> (q in files <==> q in old(files)) && (q in files ==> files[q] == old(files)[q])
      ensures TempOf(p) in files <==>
        if p in old(files) && Open(old(files)[p], oldKey).Some? && AllWell(fates[..3]) then LeavesTemp(fates)
        else TempOf(p) in old(files)
    {
      TempIsNoDocument(p);
      assert AllWell(fates[..3]) <==> fates[0] == Succeeds && fates[1] == Succeeds && fates[2] == Succeeds;
      ok := false;
      if fates[0] != Succeeds || p !in files || Open(files[p], oldKey).None? { return; }
      if fates[1] != Succeeds { return; }
      var plain := Open(files[p], oldKey).value;
      var tmp := TempOf(p);
      if fates[2] != Succeeds { return; }
      files := files[tmp := Unreadable(0)];
      if fates[3] == Dies { return; }
      if fates[3] == CallFails { files := files - {tmp}; return; }
      files := files[tmp := Unreadable(12)];
      if fates[4] == Dies { return; }
      if fates[4] == CallFails { files := files - {tmp}; return; }
      var intact := fates[3] == Succeeds && fates[4] == Succeeds;
      files := files[tmp := if intact then Sealed(newKey, nonce, plain) else Unreadable(28 + |plain.text|)];
      if fates[5] == Dies { return; }
      if fates[5] != Succeeds { files := files - {tmp}; return; }
      if fates[6] == Dies { return; }
      if fates[6] != Succeeds || Open(files[tmp], newKey).None? { files := files - {tmp}; return; }
      if fates[7] != Succeeds { return; }
      files := files[p := files[tmp]] - {tmp};
      ok := true;
    }

    /** One -apply run over the documents in walk order: it stops at the first file that fails. */
    method Rotate(walk: seq<Path>, oldKey: Key, newKey: Key, nonces: seq<nat>, fates: seq<seq<Fate>>)
      returns (total: nat, done: nat, complete: bool)
      requires |nonces| == |fates| == |walk| && forall i :: 0 <= i < |walk| ==> IsDocument(walk[i]) && |fates[i]| == 8
      requires Distinct(walk)
      modifies this
      ensures done <= total <= |walk| && (complete <==> done == |walk|)
      ensures forall i :: 0 <= i < |walk| ==>
        && (walk[i] in files <==> walk[i] in old(files))
        && (walk[i] in files ==>
              if i < done then Open(old(files)[walk[i]], oldKey).Some?
                               && files[walk[i]] == Sealed(newKey, nonces[i], Open(old(files)[walk[i]], oldKey).value)
              else files[walk[i]] == old(files)[walk[i]])
      ensures forall i :: 0 <= i < done ==> walk[i] in files
      ensures LeftBy(old(files), files, walk, oldKey, newKey, done)
      ensures done < |walk| ==> !(walk[done] in old(files) && Open(old(files)[walk[done]], oldKey).Some? && AllWell(fates[done]))
    {
      total, done := 0, 0;
      while done < |walk|
        invariant done <= |walk| && total == done
        invariant forall i :: 0 <= i < |walk| ==>
          && (walk[i] in files <==> walk[i] in old(files))
          && (walk[i] in files ==>
                if i < done then Open(old(files)[walk[i]], oldKey).Some?
                                 && files[walk[i]] == Sealed(newKey, nonces[i], Open(old(files)[walk[i]], oldKey).value)
                else files[walk[i]] == old(files)[walk[i]])
        invariant forall i :: 0 <= i < done ==> walk[i] in files
      {
        total := total + 1;
        ghost var before := files;
        var ok := RotateFile(walk[done], oldKey, newKey, nonces[done], fates[done]);
        forall i | 0 <= i < |walk| && i != done
          ensures walk[i] in files <==> walk[i] in before
          ensures walk[i] in files ==> files[walk[i]] == before[walk[i]]
        {
          assert walk[i] != walk[done];
        }
        if !ok {
          return total, done, false;
        }
        done := done + 1;
      }
      complete := true;
    }
  }

  ghost predicate Distinct(walk: seq<Path>) {
    forall i, j :: 0 <= i < j < |walk| ==> walk[i] != walk[j]
  }

  // ----- No crash point loses a document -----

  // What Rotate may leave behind: each document as it was, or the same plaintext under the new key.
  ghost predicate LeftBy(before: map<Path, Content>, after: map<Path, Content>, walk: seq<Path>, oldKey: Key, newKey: Key, done: nat) {
    forall i :: 0 <= i < |walk| && walk[i] in before ==>
      walk[i] in after &&
      if i < done then
        exists nonce, plain :: Open(before[walk[i]], oldKey) == Some(plain) && after[walk[i]] == Sealed(newKey, nonce, plain)
      else after[walk[i]] == before[walk[i]]
  }

  /** Wherever a run stops or dies, every document that could be read under one of the two keys can still be
      read, as the same plaintext, under exactly one of them. */
  lemma NoDocumentLost(before: map<Path, Content>, after: map<Path, Content>, walk: seq<Path>,
                       oldKey: Key, newKey: Key, done: nat, i: nat, plain: Plain)
    requires LeftBy(before, after, walk, oldKey, newKey, done) && oldKey != newKey
    requires i < |walk| && walk[i] in before
    requires Open(before[walk[i]], oldKey) == Some(plain) || Open(before[walk[i]], newKey) == Some(plain)
    ensures walk[i] in after
    ensures (Open(after[walk[i]], oldKey) == Some(plain) && Open(after[walk[i]], newKey).None?)
         || (Open(after[walk[i]], newKey) == Some(plain) && Open(after[walk[i]], oldKey).None?)
  {}

  // ----- What repeated runs can achieve -----

  // The keys the documents are under, in walk order.
  function KeysOf(files: map<Path, Content>, walk: seq<Path>): seq<Key>
    requires forall p :: p in walk ==> p in files && files[p].Sealed?
  {
    seq(|walk|, i requires 0 <= i < |walk| => files[walk[i]].key)
  }

  // How many documents a run rotates: those before the first one not under OLD_KEY.
  function Leading(keys: seq<Key>, oldKey: Key): (n: nat)
    ensures n <= |keys| && (forall i :: 0 <= i < n ==> keys[i] == oldKey) && (n < |keys| ==> keys[n] != oldKey)
  {
    if keys == [] || keys[0] != oldKey then 0 else 1 + Leading(keys[1..], oldKey)
  }

  // The keys after a run without system faults.
  function RunKeys(keys: seq<Key>, oldKey: Key, newKey: Key): seq<Key> {
    var n := Leading(keys, oldKey);
    seq(n, i => newKey) + keys[n..]
  }

  predicate Completes(keys: seq<Key>, oldKey: Key) {
    Leading(keys, oldKey) == |keys|
  }

  /** On the documents, a run without faults does what RunKeys says, and completes exactly when every
      document opens under OLD_KEY. */
  method RotateWell(store: Store, walk: seq<Path>, oldKey: Key, newKey: Key, nonces: seq<nat>) returns (complete: bool)
    requires Distinct(walk) && |nonces| == |walk| && forall p :: p in walk ==> IsDocument(p) && p in store.files && store.files[p].Sealed?
    modifies store
    ensures forall p :: p in walk ==> p in store.files && store.files[p].Sealed?
    ensures KeysOf(store.files, walk) == RunKeys(old(KeysOf(store.files, walk)), oldKey, newKey)
    ensures complete <==> Completes(old(KeysOf(store.files, walk)), oldKey)
    ensures forall p :: p in walk ==> store.files[p].plain == old(store.files)[p].plain
  {
    var fates := seq(|walk|, i => [Succeeds, Succeeds, Succeeds, Succeeds, Succeeds, Succeeds, Succeeds, Succeeds]);
    assert forall i :: 0 <= i < |walk| ==> walk[i] in walk;
    ghost var before := store.files;
    var total, done;
    total, done, complete := store.Rotate(walk, oldKey, newKey, nonces, fates);
    KeysAfterRun(before, store.files, walk, oldKey, newKey, done);
  }

  lemma KeysAfterRun(before: map<Path, Content>, after: map<Path, Content>, walk: seq<Path>, oldKey: Key, newKey: Key, done: nat)
    requires forall p :: p in walk ==> p in before && before[p].Sealed? && p in after
    requires done <= |walk| && (done < |walk| ==> before[walk[done]].key != oldKey)
    requires forall i :: 0 <= i < done ==>
      before[walk[i]].key == oldKey && after[walk[i]].Sealed? && after[walk[i]].key == newKey && after[walk[i]].plain == before[walk[i]].plain
    requires forall i :: done <= i < |walk| ==> after[walk[i]] == before[walk[i]]
    ensures forall p :: p in walk ==> after[p].Sealed? && after[p].plain == before[p].plain
    ensures KeysOf(after, walk) == RunKeys(KeysOf(before, walk), oldKey, newKey)
    ensures Leading(KeysOf(before, walk), oldKey) == done
  {
    LeadingIs(KeysOf(before, walk), oldKey, done);
  }

  // The keys after runs with OLD_KEY set to each of `olds` in turn and NEW_KEY unchanged.
  function RunsKeys(keys: seq<Key>, olds: seq<Key>, newKey: Key): seq<Key>
    decreases |olds|
  {
    if olds == [] then keys else RunsKeys(RunKeys(keys, olds[0], newKey), olds[1..], newKey)
  }

  // Some sequence of OLD_KEY settings makes a run report that every file is rotated.
  ghost predicate CanComplete(keys: seq<Key>, newKey: Key) {
    exists olds: seq<Key>, last :: Completes(RunsKeys(keys, olds, newKey), last)
  }

  ghost predicate SplitAt(keys: seq<Key>, n: nat, k: Key, newKey: Key) {
    n <= |keys| && (forall i :: 0 <= i < n ==> keys[i] == k) && (forall i :: n <= i < |keys| ==> keys[i] == newKey)
  }

  // The documents are under one key up to some point and under `newKey` from there on.
  ghost predicate OneKeyThenNew(keys: seq<Key>, newKey: Key) {
    exists n: nat, k: Key :: SplitAt(keys, n, k, newKey)
  }

  lemma {:induction false} LeadingIs(keys: seq<Key>, k: Key, n: nat)
    requires n <= |keys| && (forall i :: 0 <= i < n ==> keys[i] == k) && (n < |keys| ==> keys[n] != k)
    ensures Leading(keys, k) == n
    decreases n
  {
    if n > 0 {
      LeadingIs(keys[1..], k, n - 1);
    }
  }

  // Once the first document is under NEW_KEY, no choice of OLD_KEY changes anything any more.
  lemma {:induction false} StuckOnceFirstIsNew(keys: seq<Key>, olds: seq<Key>, newKey: Key)
    requires keys != [] && keys[0] == newKey
    ensures RunsKeys(keys, olds, newKey) == keys
    decreases |olds|
  {
    if olds != [] {
      var n := Leading(keys, olds[0]);
      assert RunKeys(keys, olds[0], newKey) == keys;
      StuckOnceFirstIsNew(keys, olds[1..], newKey);
    }
  }

  lemma {:induction false} CompletionNeedsOneKeyThenNew(keys: seq<Key>, olds: seq<Key>, last: Key, newKey: Key)
    requires Completes(RunsKeys(keys, olds, newKey), last)
    ensures OneKeyThenNew(keys, newKey)
    decreases |olds|
  {
    if keys == [] {
      assert SplitAt(keys, 0, last, newKey);
    } else if olds == [] {
      assert SplitAt(keys, |keys|, last, newKey);
    } else if Leading(keys, olds[0]) == 0 {
      assert RunKeys(keys, olds[0], newKey) == keys;
      CompletionNeedsOneKeyThenNew(keys, olds[1..], last, newKey);
    } else {
      StuckOnceFirstIsNew(RunKeys(keys, olds[0], newKey), olds[1..], newKey);
      AllNewAfterRun(keys, olds[0], last, newKey);
    }
  }

  lemma RunKeysAt(keys: seq<Key>, oldKey: Key, newKey: Key, i: nat)
    requires i < |keys|
    ensures |RunKeys(keys, oldKey, newKey)| == |keys|
    ensures RunKeys(keys, oldKey, newKey)[i] == if i < Leading(keys, oldKey) then newKey else keys[i]
  {}

  lemma AllNewAfterRun(keys: seq<Key>, oldKey: Key, last: Key, newKey: Key)
    requires Leading(keys, oldKey) > 0 && Completes(RunKeys(keys, oldKey, newKey), last)
    ensures OneKeyThenNew(keys, newKey)
  {
    var n := Leading(keys, oldKey);
    var next := RunKeys(keys, oldKey, newKey);
    RunKeysAt(keys, oldKey, newKey, 0);
    forall i | n <= i < |keys|
      ensures keys[i] == newKey
    {
      RunKeysAt(keys, oldKey, newKey, i);
      assert next[i] == last == next[0];
    }
    assert SplitAt(keys, n, oldKey, newKey);
  }

  /** Re-running with other values of OLD_KEY, as the resume note advises, can report completion exactly
      when the documents are under one key followed, from some point on, by the new key. */
  lemma CanCompleteIff(keys: seq<Key>, newKey: Key)
    ensures CanComplete(keys, newKey) <==> OneKeyThenNew(keys, newKey)
  {
    if CanComplete(keys, newKey) {
      var olds, last :| Completes(RunsKeys(keys, olds, newKey), last);
      CompletionNeedsOneKeyThenNew(keys, olds, last, newKey);
    }
    if OneKeyThenNew(keys, newKey) {
      var n: nat, k :| SplitAt(keys, n, k, newKey);
      OneRunMakesAllNew(keys, n, k, newKey);
      LeadingIs(RunKeys(keys, k, newKey), newKey, |keys|);
      assert [k][1..] == [];
      assert RunsKeys(keys, [k], newKey) == RunsKeys(RunKeys(keys, k, newKey), [], newKey);
      assert Completes(RunsKeys(keys, [k], newKey), newKey);
    }
  }

  lemma OneRunMakesAllNew(keys: seq<Key>, n: nat, k: Key, newKey: Key)
    requires SplitAt(keys, n, k, newKey)
    ensures |RunKeys(keys, k, newKey)| == |keys| && forall i :: 0 <= i < |keys| ==> RunKeys(keys, k, newKey)[i] == newKey
  {
    var m := Leading(keys, k);
    assert n <= m;
    assert forall i :: m <= i < |keys| ==> keys[i] == newKey && RunKeys(keys, k, newKey)[i] == keys[i];
  }

  // What a run leaves when it is interrupted after `done` of `|keys|` documents.
  function Interrupted(done: nat, total: nat, oldKey: Key, newKey: Key): seq<Key>
    requires done <= total
  {
    seq(done, i => newKey) + seq(total - done, i => oldKey)
  }

  /** The resume note's recipe never completes after a run that stopped part of the way: it does so only if
      the interrupted run had rotated nothing yet, or everything. */
  lemma ResumeCompletesIff(done: nat, total: nat, oldKey: Key, newKey: Key)
    requires done <= total && oldKey != newKey
    ensures CanComplete(Interrupted(done, total, oldKey, newKey), newKey) <==> done == 0 || done == total
  {
    var keys := Interrupted(done, total, oldKey, newKey);
    CanCompleteIff(keys, newKey);
    if done == 0 {
      assert SplitAt(keys, total, oldKey, newKey);
    } else if done == total {
      assert SplitAt(keys, 0, newKey, newKey);
    } else {
      assert keys[0] == newKey && keys[|keys| - 1] == oldKey;
    }
  }

  /** What does recover: rotate back with the two keys exchanged, then forward again. */
  lemma RollBackThenForward(done: nat, total: nat, oldKey: Key, newKey: Key)
    requires done <= total && oldKey != newKey
    ensures var back := RunKeys(Interrupted(done, total, oldKey, newKey), newKey, oldKey);
      Completes(back, oldKey) && RunKeys(back, oldKey, newKey) == seq(total, i => newKey)
  {
    var keys := Interrupted(done, total, oldKey, newKey);
    LeadingIs(keys, newKey, done);
    var back := RunKeys(keys, newKey, oldKey);
    assert forall i :: 0 <= i < total ==> back[i] == oldKey;
    LeadingIs(back, oldKey, total);
  }
}
