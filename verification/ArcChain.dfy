/** The completeness check on an ARC chain: every instance from one up, once in each of its
    three kinds of header (section 4.2.1 of RFC 8617). */
module ArcChain {
  import opened Basics

  /** The instance number a header carries, if it carries one. */
  type Reader = string -> Option<nat>

  function Instances(headers: seq<string>, read: Reader): seq<nat> {
    if headers == [] then []
    else
      var n := |headers| - 1;
      Instances(headers[..n], read) + if read(headers[n]).Some? then [read(headers[n]).value] else []
  }

  method ExtractInstances(headers: seq<string>, read: Reader) returns (instances: seq<nat>)
    ensures instances == Instances(headers, read)
  {
    instances := [];
    for i := 0 to |headers|
      invariant instances == Instances(headers[..i], read)
    {
      assert headers[..i + 1][..i] == headers[..i];
      var r := read(headers[i]);
      if r.Some? {
        instances := instances + [r.value];
      }
    }
    assert headers[..|headers|] == headers;
  }

  /** Every number from one to the length of the list is in it. */
  predicate Covers(instances: seq<nat>, n: nat) {
    forall i :: 1 <= i <= n ==> i in instances
  }

  predicate ChainComplete(auth: seq<string>, sig: seq<string>, seal: seq<string>, read: Reader) {
    && |auth| == |sig| && |auth| == |seal|
    && (seal == [] ||
        var seals, sigs, auths := Instances(seal, read), Instances(sig, read), Instances(auth, read);
        && |seals| == |sigs| && |seals| == |auths|
        && Covers(seals, |seals|) && Covers(sigs, |seals|) && Covers(auths, |seals|))
  }

  method ValidateChain(auth: seq<string>, sig: seq<string>, seal: seq<string>, read: Reader) returns (valid: bool)
    ensures valid <==> ChainComplete(auth, sig, seal, read)
  {
    if |auth| != |sig| || |auth| != |seal| {
      return false;
    }
    if |seal| == 0 {
      return true;
    }
    var seals := ExtractInstances(seal, read);
    var sigs := ExtractInstances(sig, read);
    var auths := ExtractInstances(auth, read);
    if |seals| != |sigs| || |seals| != |auths| {
      return false;
    }
    for i := 1 to |seals| + 1
      invariant Covers(seals, i - 1) && Covers(sigs, i - 1) && Covers(auths, i - 1)
    {
      if i !in seals || i !in sigs || i !in auths {
        return false;
      }
    }
    return true;
  }

  // ---------------------------------------------------------------- pigeonhole

  /** The numbers from one to `n`. */
  function UpTo(n: nat): (m: multiset<nat>)
    ensures forall i: nat :: m[i] == if 1 <= i <= n then 1 else 0
    ensures |m| == n
  {
    if n == 0 then multiset{} else UpTo(n - 1) + multiset{n}
  }

  /** A list that holds every number from one to its length holds each exactly once: it is a
      permutation of them. */
  lemma Pigeonhole(instances: seq<nat>)
    ensures Covers(instances, |instances|) <==> multiset(instances) == UpTo(|instances|)
  {
    var n := |instances|;
    var m := multiset(instances);
    if Covers(instances, n) {
      forall i: nat | 1 <= i <= n
        ensures m[i] >= 1
      {
        assert i in instances;
      }
      assert UpTo(n) <= m;
      assert m == UpTo(n) + (m - UpTo(n));
      assert |m| == n && |m - UpTo(n)| == 0;
      assert m - UpTo(n) == multiset{};
    }
    if m == UpTo(n) {
      forall i | 1 <= i <= n
        ensures i in instances
      {
        assert m[i] == 1;
      }
    }
  }

  predicate Numbered(headers: seq<string>, read: Reader) {
    forall i :: 0 <= i < |headers| ==> read(headers[i]).Some?
  }

  /** Whatever the headers, the chain is valid exactly when there are as many of each kind and,
      if there are any, each kind carries the numbers from one on, each once, and as many. */
  lemma ValidExactly(auth: seq<string>, sig: seq<string>, seal: seq<string>, read: Reader)
    ensures ChainComplete(auth, sig, seal, read) <==>
              && |auth| == |sig| && |auth| == |seal|
              && (seal != [] ==>
                    var n := |Instances(seal, read)|;
                    && multiset(Instances(seal, read)) == UpTo(n)
                    && multiset(Instances(sig, read)) == UpTo(n)
                    && multiset(Instances(auth, read)) == UpTo(n))
  {
    hide Instances, UpTo, Covers;
    var seals, sigs, auths := Instances(seal, read), Instances(sig, read), Instances(auth, read);
    Pigeonhole(seals);
    Pigeonhole(sigs);
    Pigeonhole(auths);
    SameSize(sigs, |seals|);
    SameSize(auths, |seals|);
  }

  lemma SameSize(instances: seq<nat>, n: nat)
    ensures multiset(instances) == UpTo(n) ==> |instances| == n
  {
  }

  lemma {:induction false} InstancesCount(headers: seq<string>, read: Reader)
    ensures |Instances(headers, read)| <= |headers|
    ensures |Instances(headers, read)| == |headers| <==> Numbered(headers, read)
  {
    if headers != [] {
      var n := |headers| - 1;
      InstancesCount(headers[..n], read);
      assert Numbered(headers, read) <==> Numbered(headers[..n], read) && read(headers[n]).Some?;
    }
  }

  predicate ReadFrom(headers: seq<string>, k: nat, read: Reader) {
    exists j :: 0 <= j < |headers| && read(headers[j]) == Some(k)
  }

  /** As many headers as there are numbers, and every number from one up read from one of them:
      each header carries a number of its own. */
  predicate EachOnce(headers: seq<string>, n: nat, read: Reader) {
    |headers| == n && forall k: nat :: 1 <= k <= n ==> ReadFrom(headers, k, read)
  }

  /** What a valid chain should be: every instance up to the number of seals, once in each kind. */
  predicate IsChain(auth: seq<string>, sig: seq<string>, seal: seq<string>, read: Reader) {
    EachOnce(auth, |seal|, read) && EachOnce(sig, |seal|, read) && EachOnce(seal, |seal|, read)
  }

  lemma {:induction false} InstancesAre(headers: seq<string>, read: Reader, k: nat)
    ensures k in Instances(headers, read) <==> ReadFrom(headers, k, read)
    decreases |headers|
  {
    if headers != [] {
      var n := |headers| - 1;
      InstancesAre(headers[..n], read, k);
      assert forall j :: 0 <= j < n ==> headers[..n][j] == headers[j];
    }
  }

  lemma EachOnceExactly(headers: seq<string>, n: nat, read: Reader)
    ensures EachOnce(headers, n, read) <==> |headers| == n && multiset(Instances(headers, read)) == UpTo(n)
  {
    hide Instances, UpTo, ReadFrom;
    var instances := Instances(headers, read);
    InstancesCount(headers, read);
    forall k: nat
      ensures k in instances <==> ReadFrom(headers, k, read)
    {
      InstancesAre(headers, read, k);
    }
    Pigeonhole(instances);
    SameSize(instances, n);
    if Covers(instances, n) {
      EnoughToCover(instances, n);
    }
  }

  lemma EnoughToCover(instances: seq<nat>, n: nat)
    requires Covers(instances, n)
    ensures |instances| >= n
  {
    var m := multiset(instances);
    forall i: nat | 1 <= i <= n
      ensures m[i] >= 1
    {
      assert i in instances;
    }
    assert UpTo(n) <= m && m == UpTo(n) + (m - UpTo(n));
  }

  /** What is accepted is such a chain exactly when every seal carries its number, and every
      such chain is accepted. */
  lemma AcceptedExactly(auth: seq<string>, sig: seq<string>, seal: seq<string>, read: Reader)
    requires seal != []
    ensures ChainComplete(auth, sig, seal, read) ==> (IsChain(auth, sig, seal, read) <==> Numbered(seal, read))
    ensures IsChain(auth, sig, seal, read) ==> ChainComplete(auth, sig, seal, read)
  {
    hide Instances, UpTo, ChainComplete, Numbered, EachOnce;
    ValidExactly(auth, sig, seal, read);
    InstancesCount(seal, read);
    SameSize(Instances(seal, read), |seal|);
    EachOnceExactly(auth, |seal|, read);
    EachOnceExactly(sig, |seal|, read);
    EachOnceExactly(seal, |seal|, read);
  }

  /** In particular, with a seal at least and an instance number in every header, the chain is
      valid exactly when each kind carries every number up to its length, once. */
  lemma ValidIsPermutations(auth: seq<string>, sig: seq<string>, seal: seq<string>, read: Reader)
    requires seal != [] && Numbered(auth, read) && Numbered(sig, read) && Numbered(seal, read)
    ensures ChainComplete(auth, sig, seal, read) <==> IsChain(auth, sig, seal, read)
  {
    hide ChainComplete, IsChain, Numbered;
    AcceptedExactly(auth, sig, seal, read);
  }

  /** Three headers, one of each kind and none with a number, are accepted and are no chain. */
  lemma UnnumberedAccepted(h: string)
    ensures ChainComplete([h], [h], [h], _ => None) && !IsChain([h], [h], [h], _ => None)
  {
    assert [h][..0] == [];
    assert Instances([h], _ => None) == [];
    assert !ReadFrom([h], 1, _ => None);
  }

  // ---------------------------------------------------------------- the verdict

  datatype Verdict = Absent | NoChain | Failed(length: nat) | Passed(length: nat)

  /** The verdict on the ARC headers of a message. */
  method ParseArcHeaders(auth: seq<string>, sig: seq<string>, seal: seq<string>, read: Reader) returns (v: Verdict)
    ensures v == Absent <==> auth == [] && sig == [] && seal == []
    ensures v.Passed? <==> seal != [] && ChainComplete(auth, sig, seal, read)
    ensures v.Failed? <==> seal != [] && !ChainComplete(auth, sig, seal, read)
    ensures v.Passed? || v.Failed? ==> v.length == |seal|
  {
    if |auth| == 0 && |sig| == 0 && |seal| == 0 {
      return Absent;
    }
    var valid := ValidateChain(auth, sig, seal, read);
    if |seal| == 0 {
      return NoChain;
    }
    return if valid then Passed(|seal|) else Failed(|seal|);
  }
}
