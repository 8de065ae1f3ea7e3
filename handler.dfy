/** `lambda_handler` and its helpers: one pass over the images listed under a
    folder prefix of the bucket, resizing each unprocessed image, storing the
    result under a derived key, renaming the original onto that key and
    publishing one notification per image.

    The bucket is a finite map from object keys to their bytes and the
    notification topic is the sequence of messages published so far; both are
    handed to the handler and handed back with the run's outcome. */
module Handler {
  import opened Bytes
  import opened Failures
  import opened Resize

  /** Keys ending in this suffix are outputs and are never processed again. */
  const Suffix: string := "_processed.jpg"
  /** The folder whose objects one run lists. */
  const FolderPrefix: string := "image/"
  const MessagePrefix: string := "Image processed and uploaded to S3: "
  /** The bound every image is resized into. */
  const TargetWidth: int := 100
  const TargetHeight: int := 100
  const StatusOk: int := 200
  const CompletedBody: string := "Image processing completed successfully"

  /** The bucket: object key to object bytes. */
  type Store = map<string, seq<Byte>>

  /** The bucket and the messages published to the topic. */
  datatype State = State(store: Store, log: seq<string>)

  /** What the handler hands back: the response dictionary, or the exception
      that ended the run. */
  datatype Response = Completed(statusCode: int, body: string) | Raised(error: Error)

  datatype Outcome = Outcome(state: State, response: Response)

  // ---------------------------------------------------------------- keys

  /** Python's `str.endswith`: the last |suffix| characters of s are those
      of suffix, one by one. */
  predicate EndsWith(s: string, suffix: string)
    ensures EndsWith(s, suffix) <==>
      |suffix| <= |s| && forall i :: 0 <= i < |suffix| ==> s[|s| - |suffix| + i] == suffix[i]
  {
    |suffix| <= |s| && s[|s| - |suffix|..] == suffix
  }

  /** Python's `str.startswith`, as a listing prefix filter uses it. */
  predicate StartsWith(s: string, prefix: string)
  {
    |prefix| <= |s| && s[..|prefix|] == prefix
  }

  /** The key a processed image is stored under: the original key with the
      suffix appended. */
  function ProcessedKey(k: string): (pk: string)
    ensures EndsWith(pk, Suffix)
    ensures |pk| == |k| + |Suffix| && pk[..|k|] == k
  {
    k + Suffix
  }

  /** The original key a processed key was derived from. */
  function OriginalKey(pk: string): (k: string)
    requires EndsWith(pk, Suffix)
    ensures |k| + |Suffix| == |pk|
  {
    pk[..|pk| - |Suffix|]
  }

  /** Appending the suffix and stripping it again are inverse to each other. */
  lemma ProcessedKeyRoundTrip(k: string, pk: string)
    ensures OriginalKey(ProcessedKey(k)) == k
    ensures EndsWith(pk, Suffix) ==> ProcessedKey(OriginalKey(pk)) == pk
  {
    if EndsWith(pk, Suffix) {
      assert pk == pk[..|pk| - |Suffix|] + pk[|pk| - |Suffix|..];
    }
  }

  /** Distinct originals never share a processed key, and no processed key
      is its own original. */
  lemma ProcessedKeyInjective(k1: string, k2: string)
    ensures ProcessedKey(k1) == ProcessedKey(k2) ==> k1 == k2
    ensures ProcessedKey(k1) != k1
  {
    if ProcessedKey(k1) == ProcessedKey(k2) {
      ProcessedKeyRoundTrip(k1, "");
      ProcessedKeyRoundTrip(k2, "");
    }
  }

  // ---------------------------------------------------------------- notification

  /** `send_sns_notification`: the message published for a processed key. */
  function Notification(pk: string): (m: string)
    ensures StartsWith(m, MessagePrefix) && m[|MessagePrefix|..] == pk
  {
    MessagePrefix + pk
  }

  /** The key a notification announces, if it is one. */
  function NotifiedKey(m: string): (r: Option<string>)
    ensures r.Some? <==> StartsWith(m, MessagePrefix)
  {
    if StartsWith(m, MessagePrefix) then Some(m[|MessagePrefix|..]) else None
  }

  datatype Option<T> = None | Some(value: T)

  /** Every message names exactly the key it was sent for. */
  lemma NotificationRoundTrip(pk: string, m: string)
    ensures NotifiedKey(Notification(pk)) == Some(pk)
    ensures NotifiedKey(m).Some? ==> Notification(NotifiedKey(m).value) == m
  {
    if StartsWith(m, MessagePrefix) {
      assert m == m[..|MessagePrefix|] + m[|MessagePrefix|..];
    }
  }

  // ---------------------------------------------------------------- the bucket

  /** `get_object`: the bytes stored under k. */
  function Download(store: Store, k: string): (r: Result<seq<Byte>>)
    ensures r.Ok? <==> k in store
    ensures r.Ok? ==> r.value == store[k]
    ensures r.Err? ==> r.error == NoSuchKey(k)
  {
    if k in store then Ok(store[k]) else Err(NoSuchKey(k))
  }

  /** `mark_image_as_processed`: the object under k is copied to its
      processed key, replacing whatever was there, and then deleted.  Copying
      a missing object fails before anything changes. */
  function Marked(store: Store, k: string): (r: Result<Store>)
    ensures r.Ok? <==> k in store
    ensures r.Err? ==> r.error == NoSuchKey(k)
    ensures r.Ok? ==>
      && k !in r.value
      && ProcessedKey(k) in r.value && r.value[ProcessedKey(k)] == store[k]
      && forall o :: o != k && o != ProcessedKey(k) ==>
           (o in r.value <==> o in store) && (o in store ==> r.value[o] == store[o])
  {
    ProcessedKeyInjective(k, k);
    if k !in store then Err(NoSuchKey(k))
    else
      var copied := store[ProcessedKey(k) := store[k]];
      Ok(copied - {k})
  }

  /** `mark_image_as_processed`: copy, then delete. */
  method MarkImageAsProcessed(store: Store, k: string) returns (r: Result<Store>)
    ensures r == Marked(store, k)
  {
    if k !in store {
      return Err(NoSuchKey(k));
    }
    var newKey := ProcessedKey(k);
    var copied := store[newKey := store[k]];
    r := Ok(copied - {k});
  }

  // ---------------------------------------------------------------- one run

  /** The body of the handler's loop for one listed key: skip processed keys;
      otherwise download, resize into the bound, upload under the processed
      key, mark the original as processed and publish one message.  The
      upload is then overwritten by the copy of the original. */
  function HandleKey(st: State, k: string): (r: Result<State>)
    ensures EndsWith(k, Suffix) ==> r == Ok(st)
    ensures !EndsWith(k, Suffix) && k !in st.store ==> r == Err(NoSuchKey(k))
    ensures !EndsWith(k, Suffix) && k in st.store ==>
      (r.Ok? <==> Resized(st.store[k], TargetWidth, TargetHeight).Ok?)
    ensures !EndsWith(k, Suffix) && r.Ok? ==>
      && r.value.store == st.store[ProcessedKey(k) := st.store[k]] - {k}
      && r.value.log == st.log + [Notification(ProcessedKey(k))]
  {
    if EndsWith(k, Suffix) then Ok(st)
    else
      match Download(st.store, k)
      case Err(e) => Err(e)
      case Ok(data) =>
        match Resized(data, TargetWidth, TargetHeight)
        case Err(e) => Err(e)
        case Ok(resized) =>
          var uploaded := st.store[ProcessedKey(k) := resized];
          ProcessedKeyInjective(k, k);
          match Marked(uploaded, k)
          case Err(e) => Err(e)
          case Ok(marked) =>
            assert marked == st.store[ProcessedKey(k) := st.store[k]] - {k};
            Ok(State(marked, st.log + [Notification(ProcessedKey(k))]))
  }

  /** A run over listed keys: each key in listing order, the first exception
      ending the run with the bucket and topic as they were then. */
  function Run(st: State, keys: seq<string>): (out: Outcome)
    ensures out.response.Completed? ==> out.response == Completed(StatusOk, CompletedBody)
    ensures |st.log| <= |out.state.log| <= |st.log| + |keys|
    ensures out.state.log[..|st.log|] == st.log
    decreases |keys|
  {
    if keys == [] then Outcome(st, Completed(StatusOk, CompletedBody))
    else
      match HandleKey(st, keys[0])
      case Err(e) => Outcome(st, Raised(e))
      case Ok(next) =>
        var out := Run(next, keys[1..]);
        assert next.log[..|st.log|] == st.log;
        assert out.state.log[..|st.log|] == out.state.log[..|next.log|][..|st.log|];
        out
  }

  /** `lambda_handler`, given the listing of the folder. */
  method LambdaHandler(store: Store, log: seq<string>, keys: seq<string>) returns (out: Outcome)
    ensures out == Run(State(store, log), keys)
  {
    var s, l := store, log;
    var i := 0;
    while i < |keys|
      invariant 0 <= i <= |keys|
      invariant Run(State(store, log), keys) == Run(State(s, l), keys[i..])
    {
      var k := keys[i];
      assert keys[i..][0] == k && keys[i..][1..] == keys[i + 1..];
      if !EndsWith(k, Suffix) {
        if k !in s {
          return Outcome(State(s, l), Raised(NoSuchKey(k)));
        }
        var data := s[k];
        var resized := ProcessImage(data, TargetWidth, TargetHeight);
        if resized.Err? {
          return Outcome(State(s, l), Raised(resized.error));
        }
        var processedKey := ProcessedKey(k);
        s := s[processedKey := resized.value];
        // k is still in the bucket, so marking it cannot fail
        var marked := MarkImageAsProcessed(s, k);
        s := marked.value;
        l := l + [Notification(processedKey)];
      }
      i := i + 1;
    }
    assert keys[i..] == [];
    out := Outcome(State(s, l), Completed(StatusOk, CompletedBody));
  }

  // ---------------------------------------------------------------- what a run does

  /** The listed keys the handler processes, in listing order. */
  function Pending(keys: seq<string>): (r: seq<string>)
    ensures forall k :: k in r <==> k in keys && !EndsWith(k, Suffix)
  {
    if keys == [] then []
    else if EndsWith(keys[0], Suffix) then Pending(keys[1..])
    else [keys[0]] + Pending(keys[1..])
  }

  /** The messages published for the given originals, in order. */
  function Messages(ks: seq<string>): (r: seq<string>)
    ensures |r| == |ks|
    ensures forall i :: 0 <= i < |ks| ==> r[i] == Notification(ProcessedKey(ks[i]))
  {
    if ks == [] then [] else [Notification(ProcessedKey(ks[0]))] + Messages(ks[1..])
  }

  predicate NoDuplicates(ks: seq<string>)
  {
    forall i, j :: 0 <= i < j < |ks| ==> ks[i] != ks[j]
  }

  lemma NoDuplicatesTail(k: string, ks: seq<string>)
    requires NoDuplicates([k] + ks)
    ensures k !in ks && NoDuplicates(ks)
  {
    var all := [k] + ks;
    forall j | 0 <= j < |ks|
      ensures ks[j] != k
    {
      assert all[0] == k && all[j + 1] == ks[j];
    }
    forall i, j | 0 <= i < j < |ks|
      ensures ks[i] != ks[j]
    {
      assert all[i + 1] == ks[i] && all[j + 1] == ks[j];
    }
  }

  /** The run can handle every pending key: each is listed once, is in the
      bucket and resizes without error. */
  predicate Processable(store: Store, keys: seq<string>)
  {
    && NoDuplicates(Pending(keys))
    && forall k :: k in Pending(keys) ==>
         k in store && Resized(store[k], TargetWidth, TargetHeight).Ok?
  }

  /** Keys a run writes to or deletes from: the pending originals and their
      processed keys. */
  predicate Touched(keys: seq<string>, o: string)
  {
    o in Pending(keys) || (EndsWith(o, Suffix) && OriginalKey(o) in Pending(keys))
  }

  /** Handling the first listed key of a processable listing succeeds, and
      leaves a bucket in which the rest of the listing is processable, with
      every remaining pending key still holding its object. */
  lemma StepKeepsProcessable(st: State, keys: seq<string>)
    requires keys != [] && Processable(st.store, keys)
    ensures HandleKey(st, keys[0]).Ok?
    ensures var next := HandleKey(st, keys[0]).value;
      && Processable(next.store, keys[1..])
      && forall k2 :: k2 in Pending(keys[1..]) ==> next.store[k2] == st.store[k2]
  {
    var k, rest := keys[0], keys[1..];
    if !EndsWith(k, Suffix) {
      assert Pending(keys) == [k] + Pending(rest);
      assert k in Pending(keys);
      NoDuplicatesTail(k, Pending(rest));
      forall k2 | k2 in Pending(rest)
        ensures k2 != ProcessedKey(k)
      {
        assert !EndsWith(k2, Suffix);
      }
    } else {
      assert Pending(keys) == Pending(rest);
    }
  }

  /** A run over processable keys completes with status 200 and appends one
      message per pending key, in listing order. */
  lemma {:induction false} RunCompletes(st: State, keys: seq<string>)
    requires Processable(st.store, keys)
    ensures Run(st, keys).response == Completed(StatusOk, CompletedBody)
    ensures Run(st, keys).state.log == st.log + Messages(Pending(keys))
    decreases |keys|
  {
    if keys != [] {
      var k, rest := keys[0], keys[1..];
      StepKeepsProcessable(st, keys);
      var next := HandleKey(st, k).value;
      RunCompletes(next, rest);
      if EndsWith(k, Suffix) {
        assert Pending(keys) == Pending(rest);
      } else {
        assert Pending(keys) == [k] + Pending(rest);
        assert Messages(Pending(keys)) == [Notification(ProcessedKey(k))] + Messages(Pending(rest));
        AppendAssoc(st.log, [Notification(ProcessedKey(k))], Messages(Pending(rest)));
      }
    } else {
      assert st.log + [] == st.log;
    }
  }

  /** A run over processable keys leaves every key it does not touch as it
      was. */
  lemma {:induction false} RunKeepsUntouched(st: State, keys: seq<string>)
    requires Processable(st.store, keys)
    ensures forall o :: !Touched(keys, o) ==>
      && (o in Run(st, keys).state.store <==> o in st.store)
      && (o in st.store ==> Run(st, keys).state.store[o] == st.store[o])
    decreases |keys|
  {
    if keys != [] {
      var k, rest := keys[0], keys[1..];
      StepKeepsProcessable(st, keys);
      var next := HandleKey(st, k).value;
      RunKeepsUntouched(next, rest);
      forall o | !Touched(keys, o)
        ensures !Touched(rest, o)
        ensures o in next.store <==> o in st.store
        ensures o in st.store ==> next.store[o] == st.store[o]
      {
        if !EndsWith(k, Suffix) {
          assert Pending(keys) == [k] + Pending(rest);
          assert o != k;
          if o == ProcessedKey(k) {
            ProcessedKeyRoundTrip(k, o);
            assert false;
          }
        } else {
          assert Pending(keys) == Pending(rest);
        }
      }
    }
  }

  /** A run over processable keys removes every pending original and leaves
      its processed key holding the original's bytes (not the resized
      image). */
  lemma {:induction false} RunMovesPending(st: State, keys: seq<string>)
    requires Processable(st.store, keys)
    ensures forall k :: k in Pending(keys) ==>
      && k !in Run(st, keys).state.store
      && ProcessedKey(k) in Run(st, keys).state.store
      && Run(st, keys).state.store[ProcessedKey(k)] == st.store[k]
    decreases |keys|
  {
    if keys != [] {
      var k, rest := keys[0], keys[1..];
      StepKeepsProcessable(st, keys);
      var next := HandleKey(st, k).value;
      RunMovesPending(next, rest);
      if !EndsWith(k, Suffix) {
        assert Pending(keys) == [k] + Pending(rest);
        var pk := ProcessedKey(k);
        ProcessedKeyInjective(k, k);
        NoDuplicatesTail(k, Pending(rest));
        assert !Touched(rest, k) && !Touched(rest, pk) by {
          ProcessedKeyRoundTrip(k, pk);
        }
        RunKeepsUntouched(next, rest);
      } else {
        assert Pending(keys) == Pending(rest);
      }
    }
  }

  /** One run over processable keys: it completes with status 200; every
      pending original is gone and its processed key holds the original's
      bytes; one message per pending key is appended in listing order; every
      key the run does not touch keeps its object. */
  lemma RunEffect(st: State, keys: seq<string>)
    requires Processable(st.store, keys)
    ensures var r := Run(st, keys);
      && r.response == Completed(StatusOk, CompletedBody)
      && r.state.log == st.log + Messages(Pending(keys))
      && (forall k :: k in Pending(keys) ==>
            && k !in r.state.store
            && ProcessedKey(k) in r.state.store
            && r.state.store[ProcessedKey(k)] == st.store[k])
      && (forall o :: !Touched(keys, o) ==>
            (o in r.state.store <==> o in st.store)
            && (o in st.store ==> r.state.store[o] == st.store[o]))
  {
    RunCompletes(st, keys);
    RunMovesPending(st, keys);
    RunKeepsUntouched(st, keys);
  }

  /** A run over keys that are all processed outputs changes nothing and
      publishes nothing. */
  lemma {:induction false} RunSkipsProcessed(st: State, keys: seq<string>)
    requires forall k :: k in keys ==> EndsWith(k, Suffix)
    ensures Run(st, keys) == Outcome(st, Completed(StatusOk, CompletedBody))
  {
    if keys != [] {
      assert keys[0] in keys;
      assert forall k :: k in keys[1..] ==> k in keys;
      RunSkipsProcessed(st, keys[1..]);
    }
  }

  /** Work done before a later key fails is kept: a run over two listings is
      the run over the first followed by the run over the second from where
      the first ended. */
  lemma {:induction false} RunComposes(st: State, first: seq<string>, second: seq<string>)
    requires Run(st, first).response.Completed?
    ensures Run(st, first + second) == Run(Run(st, first).state, second)
    decreases |first|
  {
    if first != [] {
      assert (first + second)[0] == first[0];
      assert (first + second)[1..] == first[1..] + second;
      RunComposes(HandleKey(st, first[0]).value, first[1..], second);
    } else {
      assert first + second == second;
    }
  }

  // ---------------------------------------------------------------- idempotence

  /** The listing holds each key of the bucket under the prefix exactly once,
      and nothing else. */
  ghost predicate ListsExactly(keys: seq<string>, store: Store, prefix: string)
  {
    && NoDuplicates(keys)
    && forall k :: k in keys <==> k in store && StartsWith(k, prefix)
  }

  /** After a run over a complete listing of the folder, every object left in
      the folder is a processed output. */
  lemma AfterRunAllProcessed(st: State, keys: seq<string>)
    requires ListsExactly(keys, st.store, FolderPrefix)
    requires Processable(st.store, keys)
    ensures forall o :: o in Run(st, keys).state.store && StartsWith(o, FolderPrefix) ==>
      EndsWith(o, Suffix)
  {
    RunEffect(st, keys);
  }

  /** Running the handler again over a complete listing of what the first
      run left behind handles no key, publishes nothing and leaves the bucket
      unchanged. */
  lemma SecondRunIsNoop(st: State, keys: seq<string>, again: seq<string>)
    requires ListsExactly(keys, st.store, FolderPrefix)
    requires Processable(st.store, keys)
    requires ListsExactly(again, Run(st, keys).state.store, FolderPrefix)
    ensures var first := Run(st, keys).state;
      Run(first, again) == Outcome(first, Completed(StatusOk, CompletedBody))
    ensures Pending(again) == []
  {
    AfterRunAllProcessed(st, keys);
    RunSkipsProcessed(Run(st, keys).state, again);
    if Pending(again) != [] {
      assert Pending(again)[0] in Pending(again);
      assert false;
    }
  }

  // ---------------------------------------------------------------- a worked run

  /** A folder holding an image k and an earlier output for it, listed in
      that order: the image is renamed onto the output's key with its original
      bytes, replacing the earlier output, the output's listing entry is
      skipped, and one message announces the processed key. */
  lemma ImageWithEarlierOutput(k: string, img: seq<Byte>, earlier: seq<Byte>)
    requires !EndsWith(k, Suffix)
    requires Resized(img, TargetWidth, TargetHeight).Ok?
    ensures var pk := ProcessedKey(k);
      Run(State(map[k := img, pk := earlier], []), [k, pk])
      == Outcome(State(map[pk := img], [Notification(pk)]), Completed(StatusOk, CompletedBody))
  {
    var pk := ProcessedKey(k);
    ProcessedKeyInjective(k, k);
    var store := map[k := img, pk := earlier];
    var next := State(map[pk := img], [Notification(pk)]);
    assert HandleKey(State(store, []), k) == Ok(next) by {
      var r := HandleKey(State(store, []), k);
      assert k in store && store[k] == img;
      assert r.Ok?;
      assert r.value.log == [] + [Notification(pk)] == [Notification(pk)];
      assert r.value.store == store[pk := img] - {k};
      assert store[pk := img] - {k} == map[pk := img];
    }
    assert [k, pk][0] == k && [k, pk][1..] == [pk];
    assert Run(State(store, []), [k, pk]) == Run(next, [pk]);
    assert HandleKey(next, pk) == Ok(next);
    assert [pk][1..] == [];
    assert Run(next, [pk]) == Run(next, []);
  }
}
