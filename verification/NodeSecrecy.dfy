/** What one share node can learn about a user's secret. */
module NodeSecrecy {
  import opened Common
  import opened Shamir
  import opened SharingTheorems
  import opened TwoFA
  import opened EnrolmentTheorems

  /** Every row is as long as a secret. */
  ghost predicate RowsSized(nodes: seq<Rows>) {
    forall i, x :: 0 <= i < |nodes| && x in nodes[i] ==> |nodes[i][x].data| == 20
  }

  lemma DistributedSizes(nodes: seq<Rows>, tag: nat, shares: seq<ShareValue>, stores: seq<Outcome>)
    requires |nodes| == |shares| == |stores| && RowsSized(nodes)
    requires forall i :: 0 <= i < |shares| ==> |shares[i].data| == 20
    ensures RowsSized(Distribute(nodes, tag, shares, stores))
  {}

  lemma SplitSizes(secret: seq<Byte>, random: seq<Option<seq<Byte>>>)
    requires |random| == |secret| && SplitSpec(secret, NODES, THRESHOLD, random).Ok?
    ensures forall s <- SplitSpec(secret, NODES, THRESHOLD, random).value :: |s.data| == |secret|
  {}

  lemma SetupSizes(u: User, env: SetupEnv)
    requires |u.nodes| == NODES && SetupFits(u, env) && RowsSized(u.nodes)
    ensures RowsSized(SetupStep(u, env).0.nodes)
  {
    hide Distribute, DeleteEverywhere, AddRecord, AllStored, RowsSized;
    if !env.readFails && u.record != Some(true) && env.secret.Some? {
      match SplitSpec(env.secret.value, NODES, THRESHOLD, env.random)
      case Err(_) =>
      case Ok(shares) =>
        SplitSizes(env.secret.value, env.random);
        hide SplitSpec;
        SplitSize(env.secret.value, env.random);
        DistributedSizes(u.nodes, env.tag, shares, env.stores);
        var stored := Distribute(u.nodes, env.tag, shares, env.stores);
        DeletedSizes(stored, env.cleanups);
        var w := u.(book := u.book.(splits := u.book.splits[env.tag := SplitRecord(env.secret.value, shares)]));
        AddRecordFrame(w.(nodes := stored), env);
    }
  }

  lemma DeletedSizes(nodes: seq<Rows>, outcomes: seq<Outcome>)
    requires |nodes| == |outcomes| && RowsSized(nodes)
    ensures RowsSized(DeleteEverywhere(nodes, outcomes))
  {}

  lemma StepSizes(o: Oracles, u: User, op: Op)
    requires |u.nodes| == NODES && Fits(u, op) && RowsSized(u.nodes)
    ensures |Step(o, u, op).nodes| == NODES && RowsSized(Step(o, u, op).nodes)
  {
    hide SetupStep, VerifyStep, DisableStep;
    StepNodes(o, u, op);
    match op
    case Setup(env) => SetupSizes(u, env);
    case Verify(env) => VerifyFrame(o, u, env);
    case Disable(env) => DisableFrame(o, u, env);
    case Tick(_) =>
  }

  lemma {:induction false} RunSizes(o: Oracles, u: User, ops: seq<Op>)
    requires |u.nodes| == NODES && FitsRun(o, u, ops) && RowsSized(u.nodes)
    ensures RowsSized(Run(o, u, ops).nodes)
    decreases |ops|
  {
    hide Step, Fits, RowsSized;
    if ops != [] {
      StepSizes(o, u, ops[0]);
      RunSizes(o, Step(o, u, ops[0]), ops[1..]);
    }
  }

  /** In every reachable state, whatever failed before: what a node holds for the user fits every
      secret of 20 bytes, and for each of them exactly one choice of the random coefficients. */
  lemma OneNodeTellsNothing(o: Oracles, start: Time, ops: seq<Op>, i: nat, secret: seq<Byte>)
    requires FitsRun(o, NewUser(start), ops) && i < NODES && |secret| == 20
    requires i + 1 in Run(o, NewUser(start), ops).nodes[i]
    ensures var seen := [Answer(Run(o, NewUser(start), ops).nodes, i)];
            && (exists c :: ExplainsShares(secret, c, seen))
            && (forall c, d :: ExplainsShares(secret, c, seen) && ExplainsShares(secret, d, seen) ==> c == d)
  {
    hide Step, Fits, ShareIndex;
    RunSizes(o, NewUser(start), ops);
    ShareIndexDistinct(i, i);
    SharesFixNothing(secret, [Answer(Run(o, NewUser(start), ops).nodes, i)]);
  }
}
