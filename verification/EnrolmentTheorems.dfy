/** What every run keeps true of the shares held for a user. */
module EnrolmentTheorems {
  import opened Common
  import opened Shamir
  import opened Combine
  import opened SharingTheorems
  import opened TwoFA

  // ----- One Split at a time -----

  /** Node i holds nothing, or its own share of split k. */
  ghost predicate HoldsPartOf(u: User, k: nat)
    requires |u.nodes| == NODES
  {
    forall i :: 0 <= i < NODES ==> u.nodes[i] == map[] || HoldsShare(u, i, k)
  }

  ghost predicate HoldsShare(u: User, i: nat, k: nat)
    requires |u.nodes| == NODES && i < NODES
  {
    && k in u.book.splits && |u.book.splits[k].shares| == NODES
    && u.nodes[i] == map[i + 1 := StoredShare(k, u.book.splits[k].shares[i].data)]
  }

  ghost predicate OneSplit(u: User) {
    |u.nodes| == NODES && ((forall i :: 0 <= i < NODES ==> u.nodes[i] == map[]) || exists k :: HoldsPartOf(u, k))
  }

  /** Node i holds no row but its own, and every split on record was made by Split. */
  ghost predicate Placed(u: User) {
    && |u.nodes| == NODES
    && (forall i, x :: 0 <= i < NODES && x in u.nodes[i] ==> x == i + 1)
    && (forall k :: k in u.book.splits ==> Genuine(u.book.splits[k]))
  }

  ghost predicate Genuine(r: SplitRecord) {
    exists random :: RandomFits(random, |r.secret|, THRESHOLD)
                     && SplitSpec(r.secret, NODES, THRESHOLD, random) == Ok(r.shares)
  }

  /** Whatever else fails, the compensating deletes of a failed Setup succeed. */
  ghost predicate CleanupsWork(op: Op) {
    op.Setup? ==> AllDone(op.setup.cleanups)
  }

  ghost predicate AllEmpty(u: User) {
    |u.nodes| == NODES && forall i :: 0 <= i < NODES ==> u.nodes[i] == map[]
  }

  lemma DistributedShares(nodes: seq<Rows>, shares: seq<ShareValue>, tag: nat, stores: seq<Outcome>, i: nat)
    requires |nodes| == |shares| == |stores| && AllStored(nodes, stores) && i < |nodes|
    requires forall x :: x in nodes[i] ==> x == i + 1
    ensures Distribute(nodes, tag, shares, stores)[i] == map[i + 1 := StoredShare(tag, shares[i].data)]
  {}

  lemma CleanedUp(nodes: seq<Rows>, outcomes: seq<Outcome>)
    requires |nodes| == |outcomes| && AllDone(outcomes)
    ensures forall i :: 0 <= i < |nodes| ==> DeleteEverywhere(nodes, outcomes)[i] == map[]
  {}

  lemma AddRecordFrame(u: User, env: SetupEnv)
    requires |env.ids| == CODES_PER_BATCH && (env.hashes.Some? ==> |env.hashes.value| == CODES_PER_BATCH)
    ensures var v := AddRecord(u, env).0; v.nodes == u.nodes && v.book.splits == u.book.splits
  {}

  lemma EnrolShares(u: User, shares: seq<ShareValue>, env: SetupEnv)
    requires |u.nodes| == |shares| == |env.stores| == |env.cleanups| == NODES
    requires forall i, x :: 0 <= i < NODES && x in u.nodes[i] ==> x == i + 1
    requires |env.ids| == CODES_PER_BATCH && (env.hashes.Some? ==> |env.hashes.value| == CODES_PER_BATCH)
    requires env.tag in u.book.splits && u.book.splits[env.tag].shares == shares
    ensures var (v, reply) := Enrol(u, shares, env);
            && |v.nodes| == NODES && v.book.splits == u.book.splits
            && (AllStored(u.nodes, env.stores) ==> forall i :: 0 <= i < NODES ==> HoldsShare(v, i, env.tag))
            && (!AllStored(u.nodes, env.stores) ==> reply == SetupFailed && (AllDone(env.cleanups) ==> AllEmpty(v)))
  {
    hide Distribute, DeleteEverywhere, AddRecord, OneSplit, AllStored, AllDone;
    var stored := Distribute(u.nodes, env.tag, shares, env.stores);
    if AllDone(env.cleanups) {
      CleanedUp(stored, env.cleanups);
    }
    AddRecordFrame(u.(nodes := stored), env);
    if AllStored(u.nodes, env.stores) {
      forall i | 0 <= i < NODES
        ensures stored[i] == map[i + 1 := StoredShare(env.tag, shares[i].data)]
      {
        DistributedShares(u.nodes, shares, env.tag, env.stores, i);
      }
    }
  }

  lemma OneSplitNodes(u: User)
    requires OneSplit(u)
    ensures |u.nodes| == NODES
    ensures forall i, x :: 0 <= i < NODES && x in u.nodes[i] ==> x == i + 1
  {}

  /** The cases of Setup, as seen by the share nodes. */
  lemma SetupShares(u: User, env: SetupEnv)
    requires OneSplit(u) && SetupFits(u, env) && AllDone(env.cleanups)
    ensures var (v, reply) := SetupStep(u, env);
            && |v.nodes| == NODES
            && (reply == SetupDone ==> forall i :: 0 <= i < NODES ==> HoldsShare(v, i, env.tag))
            && ((v.nodes == u.nodes && v.book.splits == u.book.splits) || AllEmpty(v)
                || forall i :: 0 <= i < NODES ==> HoldsShare(v, i, env.tag))
  {
    hide Enrol, OneSplit, AllDone, HoldsShare, AllEmpty, AllStored;
    OneSplitNodes(u);
    if !env.readFails && u.record != Some(true) && env.secret.Some? {
      match SplitSpec(env.secret.value, NODES, THRESHOLD, env.random)
      case Err(_) =>
      case Ok(shares) =>
        hide SplitSpec;
        var w := u.(book := u.book.(splits := u.book.splits[env.tag := SplitRecord(env.secret.value, shares)]));
        OneSplitExtends(u, w, env.tag);
        EnrolShares(w, shares, env);
    }
  }

  lemma OneSplitExtends(u: User, w: User, tag: nat)
    requires OneSplit(u) && w.nodes == u.nodes && tag !in u.book.splits
    requires forall k :: k in u.book.splits ==> k in w.book.splits && w.book.splits[k] == u.book.splits[k]
    ensures OneSplit(w)
  {
    if k :| HoldsPartOf(u, k) {
      forall i | 0 <= i < NODES
        ensures w.nodes[i] == map[] || HoldsShare(w, i, k)
      {
        assert u.nodes[i] == map[] || HoldsShare(u, i, k);
      }
      assert HoldsPartOf(w, k);
    }
  }

  lemma OneSplitStep(o: Oracles, u: User, op: Op)
    requires OneSplit(u) && Fits(u, op) && CleanupsWork(op)
    ensures OneSplit(Step(o, u, op))
  {
    var v := Step(o, u, op);
    hide SetupStep, VerifyStep, DisableStep;
    match op
    case Setup(env) =>
      SetupShares(u, env);
      if forall i :: 0 <= i < NODES ==> HoldsShare(v, i, env.tag) {
        assert HoldsPartOf(v, env.tag);
      } else if v.nodes == u.nodes && v.book.splits == u.book.splits {
        SameShares(u, v);
      }
    case Verify(env) =>
      VerifyFrame(o, u, env);
      SameShares(u, v);
    case Disable(env) =>
      DisableFrame(o, u, env);
      SameShares(u, v);
    case Tick(_) =>
      SameShares(u, v);
  }

  lemma SameShares(u: User, v: User)
    requires OneSplit(u) && |v.nodes| == NODES && v.book.splits == u.book.splits
    requires forall i :: 0 <= i < NODES ==> v.nodes[i] == u.nodes[i] || v.nodes[i] == map[]
    ensures OneSplit(v)
  {
    if k :| HoldsPartOf(u, k) {
      forall i | 0 <= i < NODES
        ensures v.nodes[i] == map[] || HoldsShare(v, i, k)
      {
        assert u.nodes[i] == map[] || HoldsShare(u, i, k);
      }
      assert HoldsPartOf(v, k);
    }
  }

  lemma {:induction false} OneSplitOverRun(o: Oracles, u: User, ops: seq<Op>)
    requires OneSplit(u) && FitsRun(o, u, ops)
    requires forall i :: 0 <= i < |ops| ==> CleanupsWork(ops[i])
    ensures OneSplit(Run(o, u, ops))
    decreases |ops|
  {
    hide Step, Fits, OneSplit, CleanupsWork;
    OneSplitNodes(u);
    if ops != [] {
      StepNodes(o, u, ops[0]);
      OneSplitStep(o, u, ops[0]);
      OneSplitOverRun(o, Step(o, u, ops[0]), ops[1..]);
    }
  }

  /** In every run whose compensating deletes succeed, whatever other calls fail, all shares held
      for the user come from one call of Split, each on the node it was made for. */
  lemma OneSplitAtATime(o: Oracles, start: Time, ops: seq<Op>)
    requires FitsRun(o, NewUser(start), ops)
    requires forall i :: 0 <= i < |ops| ==> CleanupsWork(ops[i])
    ensures var u := Run(o, NewUser(start), ops);
            AllEmpty(u) || exists k :: HoldsPartOf(u, k)
  {
    hide Step, Fits, CleanupsWork, HoldsPartOf;
    OneSplitOverRun(o, NewUser(start), ops);
  }

  // ----- What every run keeps, whatever fails -----

  lemma DistributedRows(nodes: seq<Rows>, tag: nat, shares: seq<ShareValue>, stores: seq<Outcome>)
    requires |nodes| == |shares| == |stores|
    requires forall i, x :: 0 <= i < |nodes| && x in nodes[i] ==> x == i + 1
    ensures var r := Distribute(nodes, tag, shares, stores);
            forall i, x :: 0 <= i < |nodes| && x in r[i] ==> x == i + 1
  {}

  lemma DeletedRows(nodes: seq<Rows>, outcomes: seq<Outcome>)
    requires |nodes| == |outcomes|
    ensures forall i :: 0 <= i < |nodes| ==>
              DeleteEverywhere(nodes, outcomes)[i] == nodes[i] || DeleteEverywhere(nodes, outcomes)[i] == map[]
  {}

  lemma PlacedAfterSetup(u: User, env: SetupEnv)
    requires Placed(u) && SetupFits(u, env)
    ensures Placed(SetupStep(u, env).0)
  {
    hide Distribute, DeleteEverywhere, AddRecord, AllStored;
    if !env.readFails && u.record != Some(true) && env.secret.Some? {
      match SplitSpec(env.secret.value, NODES, THRESHOLD, env.random)
      case Err(_) =>
      case Ok(shares) =>
        assert Genuine(SplitRecord(env.secret.value, shares));
        hide SplitSpec, Genuine;
        assert |shares| == NODES by { SplitSize(env.secret.value, env.random); }
        var stored := Distribute(u.nodes, env.tag, shares, env.stores);
        DistributedRows(u.nodes, env.tag, shares, env.stores);
        DeletedRows(stored, env.cleanups);
        var w := u.(book := u.book.(splits := u.book.splits[env.tag := SplitRecord(env.secret.value, shares)]));
        AddRecordFrame(w.(nodes := stored), env);
    }
  }

  lemma SplitSize(secret: seq<Byte>, random: seq<Option<seq<Byte>>>)
    requires |random| == |secret| && SplitSpec(secret, NODES, THRESHOLD, random).Ok?
    ensures |SplitSpec(secret, NODES, THRESHOLD, random).value| == NODES
  {}

  lemma PlacedStep(o: Oracles, u: User, op: Op)
    requires Placed(u) && Fits(u, op)
    ensures Placed(Step(o, u, op))
  {
    hide SetupStep, VerifyStep, DisableStep, Genuine;
    match op
    case Setup(env) => PlacedAfterSetup(u, env);
    case Verify(env) => VerifyFrame(o, u, env);
    case Disable(env) => DisableFrame(o, u, env);
    case Tick(_) =>
  }

  lemma {:induction false} PlacedOverRun(o: Oracles, u: User, ops: seq<Op>)
    requires Placed(u) && FitsRun(o, u, ops)
    ensures Placed(Run(o, u, ops))
    decreases |ops|
  {
    hide Step, Fits;
    if ops != [] {
      PlacedStep(o, u, ops[0]);
      PlacedOverRun(o, Step(o, u, ops[0]), ops[1..]);
    }
  }

  // ----- End to end -----

  /** All three nodes hold their share of split k. */
  ghost predicate Enrolled(u: User, k: nat) {
    && |u.nodes| == NODES && k in u.book.splits && |u.book.splits[k].shares| == NODES
    && (forall i :: 0 <= i < NODES ==> HoldsShare(u, i, k))
    && Genuine(u.book.splits[k])
  }

  lemma SetupEnrols(u: User, env: SetupEnv)
    requires Placed(u) && SetupFits(u, env) && SetupStep(u, env).1 == SetupDone
    ensures Enrolled(SetupStep(u, env).0, env.tag)
    ensures env.secret.Some? && SetupStep(u, env).0.book.splits[env.tag].secret == env.secret.value
  {
    hide Enrol, AllDone, HoldsShare, AllStored;
    var shares := SplitSpec(env.secret.value, NODES, THRESHOLD, env.random).value;
    SplitSize(env.secret.value, env.random);
    assert Genuine(SplitRecord(env.secret.value, shares));
    hide SplitSpec, Genuine;
    var w := u.(book := u.book.(splits := u.book.splits[env.tag := SplitRecord(env.secret.value, shares)]));
    EnrolShares(w, shares, env);
  }

  /** The request can touch the shares: a Setup of a user not yet enabled, or a Disable whose
      code is accepted. */
  ghost predicate Reenrols(o: Oracles, u: User, op: Op)
    requires |u.nodes| == NODES && Fits(u, op)
  {
    match op
    case Setup(env) => u.record != Some(true)
    case Disable(env) =>
      && !env.readFails && u.record == Some(true) && BeforeCheck(u, env).1
      && CheckCode(o, BeforeCheck(u, env).0, env, false).1.Accepted?
    case _ => false
  }

  lemma EnrolledStep(o: Oracles, u: User, op: Op, k: nat)
    requires |u.nodes| == NODES && Enrolled(u, k) && Fits(u, op) && !Reenrols(o, u, op)
    ensures Enrolled(Step(o, u, op), k) && Step(o, u, op).book.splits == u.book.splits
  {
    hide VerifyStep, CheckCode, Enrolled;
    var v := Step(o, u, op);
    match op
    case Setup(env) =>
    case Verify(env) =>
      VerifyFrame(o, u, env);
      SameEnrolment(u, v, k);
    case Disable(env) =>
      CheckFrame(o, BeforeCheck(u, env).0, env, false);
      SameEnrolment(u, v, k);
    case Tick(_) =>
      SameEnrolment(u, v, k);
  }

  lemma SameEnrolment(u: User, v: User, k: nat)
    requires Enrolled(u, k) && v.nodes == u.nodes && v.book.splits == u.book.splits
    ensures Enrolled(v, k)
  {
    forall i | 0 <= i < NODES
      ensures HoldsShare(v, i, k)
    {
      assert HoldsShare(u, i, k);
    }
  }

  ghost predicate NoReenrolment(o: Oracles, u: User, ops: seq<Op>)
    requires |u.nodes| == NODES && FitsRun(o, u, ops)
    decreases |ops|
  {
    ops == [] ||
    (StepNodes(o, u, ops[0]);
     !Reenrols(o, u, ops[0]) && NoReenrolment(o, Step(o, u, ops[0]), ops[1..]))
  }

  lemma {:induction false} EnrolledOverRun(o: Oracles, u: User, ops: seq<Op>, k: nat)
    requires Placed(u) && Enrolled(u, k) && FitsRun(o, u, ops) && NoReenrolment(o, u, ops)
    ensures Enrolled(Run(o, u, ops), k) && Run(o, u, ops).book.splits == u.book.splits
    decreases |ops|
  {
    hide Step, Fits, Reenrols;
    if ops != [] {
      PlacedStep(o, u, ops[0]);
      EnrolledStep(o, u, ops[0], k);
      EnrolledOverRun(o, Step(o, u, ops[0]), ops[1..], k);
    }
  }

  ghost predicate AtMostOneFails(fails: seq<bool>)
    requires |fails| == NODES
  {
    !(fails[0] && fails[1]) && !(fails[0] && fails[2]) && !(fails[1] && fails[2])
  }

  lemma ArrivedOfThree(nodes: seq<Rows>, fails: seq<bool>, order: seq<nat>)
    requires |nodes| == |fails| == NODES && IsOrder(order)
    ensures Arrived(nodes, fails, order) ==
            (if Answers(nodes, fails, order[0]) then [Answer(nodes, order[0])] else [])
            + (if Answers(nodes, fails, order[1]) then [Answer(nodes, order[1])] else [])
            + (if Answers(nodes, fails, order[2]) then [Answer(nodes, order[2])] else [])
  {
    hide Answer;
    assert order[1..][0] == order[1] && order[1..][1..] == order[2..];
    assert order[2..][0] == order[2] && order[2..][1..] == [];
    assert Arrived(nodes, fails, []) == [];
    assert Arrived(nodes, fails, order[2..]) ==
           if Answers(nodes, fails, order[2]) then [Answer(nodes, order[2])] else [];
  }

  lemma AnswerIsShare(u: User, k: nat, i: nat)
    requires Enrolled(u, k) && i < NODES
    ensures i + 1 in u.nodes[i] && Answer(u.nodes, i) == u.book.splits[k].shares[i]
  {
    assert HoldsShare(u, i, k);
    var r := u.book.splits[k];
    var random :| RandomFits(random, |r.secret|, THRESHOLD)
                  && SplitSpec(r.secret, NODES, THRESHOLD, random) == Ok(r.shares);
    SplitShareAt(r.secret, random, i);
  }

  lemma SplitShareAt(secret: seq<Byte>, random: seq<Option<seq<Byte>>>, i: nat)
    requires |random| == |secret| && SplitSpec(secret, NODES, THRESHOLD, random).Ok? && i < NODES
    ensures SplitSpec(secret, NODES, THRESHOLD, random).value[i].index == ShareIndex(i)
  {}

  lemma TwoSharesCombine(u: User, k: nat, i: nat, j: nat)
    requires Enrolled(u, k) && i < NODES && j < NODES && i != j
    ensures CombineSpec([u.book.splits[k].shares[i], u.book.splits[k].shares[j]]) == Ok(u.book.splits[k].secret)
  {
    var r := u.book.splits[k];
    assert HoldsShare(u, 0, k);
    var random :| RandomFits(random, |r.secret|, THRESHOLD)
                  && SplitSpec(r.secret, NODES, THRESHOLD, random) == Ok(r.shares);
    hide SplitSpec, CombineSpec;
    RoundTrip(r.secret, NODES, THRESHOLD, random, [i, j]);
    assert Select(r.shares, [i, j]) == [r.shares[i], r.shares[j]];
  }

  /** While the user is enrolled with split k, a retrieval with at most one failing node, in any
      arrival order, yields two different shares that combine into the secret of the split. */
  lemma RetrievalRecovers(u: User, k: nat, fails: seq<bool>, order: seq<nat>)
    requires Enrolled(u, k) && |fails| == NODES && IsOrder(order)
    ensures AtMostOneFails(fails) ==>
              var r := Retrieve(u.nodes, fails, order);
              && r.Some? && |r.value| == 2 && r.value[0].index != r.value[1].index
              && CombineSpec(r.value) == Ok(u.book.splits[k].secret)
  {
    hide CombineSpec, Answer, ShareIndex;
    ArrivedOfThree(u.nodes, fails, order);
    AnswerIsShare(u, k, 0);
    AnswerIsShare(u, k, 1);
    AnswerIsShare(u, k, 2);
    if AtMostOneFails(fails) {
      var a, b, c := order[0], order[1], order[2];
      var shares := u.book.splits[k].shares;
      var i := if fails[a] then b else a;
      var j := if fails[a] || fails[b] then c else b;
      assert Retrieve(u.nodes, fails, order).value == [shares[i], shares[j]];
      TwoSharesCombine(u, k, i, j);
      ShareIndexDistinct(i, j);
      AnswerIndex(u.nodes, i);
      AnswerIndex(u.nodes, j);
    }
  }

  lemma AnswerIndex(nodes: seq<Rows>, i: nat)
    requires i < |nodes| && i < 255 && i + 1 in nodes[i]
    ensures Answer(nodes, i).index == ShareIndex(i)
  {}

  /** Two failing nodes are too many, whatever the nodes hold. */
  lemma TwoFailuresRefused(nodes: seq<Rows>, fails: seq<bool>, order: seq<nat>)
    requires |nodes| == |fails| == NODES && IsOrder(order) && !AtMostOneFails(fails)
    ensures Retrieve(nodes, fails, order).None?
  {
    hide Answer;
    ArrivedOfThree(nodes, fails, order);
  }

  /** End to end: from a successful Setup on, until the shares are touched again, whatever else is
      requested and whatever calls fail, retrieval recovers exactly the secret Setup generated. */
  lemma EndToEnd(o: Oracles, start: Time, before: seq<Op>, env: SetupEnv, after: seq<Op>,
                 fails: seq<bool>, order: seq<nat>)
    requires FitsRun(o, NewUser(start), before)
    requires var u := Run(o, NewUser(start), before);
             SetupFits(u, env) && SetupStep(u, env).1 == SetupDone && |SetupStep(u, env).0.nodes| == NODES
             && FitsRun(o, SetupStep(u, env).0, after) && NoReenrolment(o, SetupStep(u, env).0, after)
    requires |fails| == NODES && IsOrder(order)
    ensures var r := Retrieve(Run(o, SetupStep(Run(o, NewUser(start), before), env).0, after).nodes, fails, order);
            if AtMostOneFails(fails)
            then r.Some? && |r.value| == 2 && r.value[0].index != r.value[1].index
                 && CombineSpec(r.value) == Ok(env.secret.value)
            else r.None?
  {
    hide SetupStep, CombineSpec, Retrieve, Reenrols, Genuine;
    PlacedOverRun(o, NewUser(start), before);
    var u := Run(o, NewUser(start), before);
    SetupEnrols(u, env);
    PlacedAfterSetup(u, env);
    var v := SetupStep(u, env).0;
    EnrolledOverRun(o, v, after, env.tag);
    var w := Run(o, v, after);
    if AtMostOneFails(fails) {
      RetrievalRecovers(w, env.tag, fails, order);
    } else {
      TwoFailuresRefused(w.nodes, fails, order);
    }
  }

  // ----- Setup heals itself -----

  /** No call fails by itself. Once a node refuses a second row the other stores are cancelled
      and may end in any way. */
  ghost predicate FaultFree(u: User, env: SetupEnv)
    requires |u.nodes| == NODES && SetupFits(u, env)
  {
    && !env.readFails && env.secret.Some?
    && (forall b :: 0 <= b < |env.random| ==> env.random[b].Some?)
    && AllDone(env.cleanups) && env.create.Done? && env.hashes.Some? && env.storeCodes.Done?
    && ((forall i :: 0 <= i < NODES ==> i + 1 !in u.nodes[i]) ==> AllDone(env.stores))
  }

  lemma FaultFreeSetup(u: User, env: SetupEnv)
    requires Placed(u) && SetupFits(u, env) && FaultFree(u, env) && u.record != Some(true)
    ensures var (v, reply) := SetupStep(u, env);
            if AllEmpty(u) then reply == SetupDone && Enrolled(v, env.tag)
            else reply == SetupFailed && AllEmpty(v) && v.record == u.record && v.codes == u.codes
  {
    hide HoldsShare, Genuine, Enrolled;
    assert SplitSpec(env.secret.value, NODES, THRESHOLD, env.random).Ok?;
    var shares := SplitSpec(env.secret.value, NODES, THRESHOLD, env.random).value;
    SplitSize(env.secret.value, env.random);
    var w := u.(book := u.book.(splits := u.book.splits[env.tag := SplitRecord(env.secret.value, shares)]));
    assert SetupStep(u, env) == Enrol(w, shares, env);
    hide SplitSpec;
    EmptyOrHeld(u);
    var stored := Distribute(w.nodes, env.tag, shares, env.stores);
    assert AllStored(u.nodes, env.stores) <==> AllEmpty(u);
    if AllEmpty(u) {
      SetupEnrols(u, env);
    } else {
      CleanedUp(stored, env.cleanups);
    }
  }

  lemma EmptyOrHeld(u: User)
    requires Placed(u)
    ensures AllEmpty(u) <==> forall i :: 0 <= i < NODES ==> i + 1 !in u.nodes[i]
  {}

  /** From every reachable state in which the user is not enabled, a Setup without faults either
      succeeds, leaving each node its share of this one split, or fails leaving all three nodes
      empty, and then the next Setup without faults succeeds. It succeeds at once exactly when
      the nodes hold nothing. */
  lemma SetupHealsItself(o: Oracles, start: Time, ops: seq<Op>, first: SetupEnv, second: SetupEnv)
    requires FitsRun(o, NewUser(start), ops)
    requires var u := Run(o, NewUser(start), ops);
             SetupFits(u, first) && FaultFree(u, first) && u.record != Some(true)
    ensures var u := Run(o, NewUser(start), ops);
            var (v, reply) := SetupStep(u, first);
            && (reply == SetupDone <==> AllEmpty(u))
            && (reply == SetupDone ==> Enrolled(v, first.tag))
            && (reply != SetupDone ==>
                  && AllEmpty(v) && v.record == u.record
                  && (SetupFits(v, second) && FaultFree(v, second) ==>
                        SetupStep(v, second).1 == SetupDone && Enrolled(SetupStep(v, second).0, second.tag)))
  {
    hide SetupStep, Enrolled, FaultFree, Genuine;
    PlacedOverRun(o, NewUser(start), ops);
    var u := Run(o, NewUser(start), ops);
    FaultFreeSetup(u, first);
    PlacedAfterSetup(u, first);
    var v := SetupStep(u, first).0;
    if !AllEmpty(u) && SetupFits(v, second) && FaultFree(v, second) {
      FaultFreeSetup(v, second);
    }
  }

  // ----- Verify judges codes by the secret of the split -----

  /** While enrolled and with at most one failing node, the answer to a one-time code depends on
      the secret Setup generated, not on which nodes answer or in which order. */
  lemma VerifyUsesTheSecret(o: Oracles, u: User, k: nat, env: CheckEnv)
    requires Enrolled(u, k) && CheckFits(u, env) && AtMostOneFails(env.fails) && !IsBackupCode(env.code)
    ensures CheckCode(o, u, env, true) == LookUpThenValidate(o, u, u.book.splits[k].secret, env)
    ensures CheckCode(o, u, env, false) == ValidateThenLookUp(o, u, u.book.splits[k].secret, env)
  {
    hide Enrolled, CombineSpec, Retrieve, LookUpThenValidate, ValidateThenLookUp;
    assert |u.nodes| == NODES && k in u.book.splits by { EnrolledMeans(u, k); }
    RetrievalRecovers(u, k, env.fails, env.order);
  }

  lemma EnrolledMeans(u: User, k: nat)
    requires Enrolled(u, k)
    ensures |u.nodes| == NODES && k in u.book.splits
  {}
}
