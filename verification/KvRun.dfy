/**
 Whole runs of operations: the database against a fold over a finite map, and a power cut at the end of a run.
 */
module KvRun {
  import opened FdbDef
  import opened KvBoot
  import opened KvDb
  import opened KvFlash
  import opened KvGuard
  import opened KvPowerCut
  import opened Wrappers

  datatype Op = Set(key: Key, value: Value) | Delete(key: Key) | Get(key: Key, bufLen: nat)

  datatype Answer = Status(err: FdbErr) | Data(data: seq<bv8>, len: nat)

  /** What a map answers.  A set may be refused for lack of space or for its name. */
  predicate AnswerOk(m: map<Key, Value>, op: Op, a: Answer) {
    match op
    case Set(key, _) => a == Status(SAVED_FULL) || a == Status(if |key| > NAME_MAX then KV_NAME_ERR else NO_ERR)
    case Delete(key) => a == Status(if key in m then NO_ERR else KV_NAME_ERR)
    case Get(key, bufLen) =>
      if key !in m then a == Data([], 0)
      else a == Data(m[key][..if bufLen < |m[key]| then bufLen else |m[key]|], |m[key]|)
  }

  /** What it is afterwards. */
  function After(m: map<Key, Value>, op: Op, a: Answer): map<Key, Value> {
    match op
    case Set(key, value) => if a == Status(NO_ERR) then m[key := value] else m
    case Delete(key) => m - {key}
    case Get(_, _) => m
  }

  /** The map after the first `n` operations. */
  function Fold(m: map<Key, Value>, ops: seq<Op>, answers: seq<Answer>, n: nat): map<Key, Value>
    requires n <= |ops| && n <= |answers|
  {
    if n == 0 then m else After(Fold(m, ops, answers, n - 1), ops[n - 1], answers[n - 1])
  }

  /** Every answer is the one of the map as the operations before have left it. */
  predicate AllOk(m: map<Key, Value>, ops: seq<Op>, answers: seq<Answer>)
    requires |answers| <= |ops|
  {
    forall i :: 0 <= i < |answers| ==> AnswerOk(Fold(m, ops, answers, i), ops[i], answers[i])
  }

  lemma {:induction false} FoldMore(m: map<Key, Value>, ops: seq<Op>, answers: seq<Answer>, a: Answer, n: nat)
    requires n <= |answers| < |ops|
    ensures Fold(m, ops, answers + [a], n) == Fold(m, ops, answers, n)
  {
    if n > 0 {
      FoldMore(m, ops, answers, a, n - 1);
      assert (answers + [a])[n - 1] == answers[n - 1];
    }
  }

  lemma OneMore(m: map<Key, Value>, ops: seq<Op>, answers: seq<Answer>, a: Answer)
    requires |answers| < |ops| && AllOk(m, ops, answers)
    requires AnswerOk(Fold(m, ops, answers, |answers|), ops[|answers|], a)
    ensures AllOk(m, ops, answers + [a])
    ensures Fold(m, ops, answers + [a], |answers| + 1) == After(Fold(m, ops, answers, |answers|), ops[|answers|], a)
  {
    forall n: nat | n <= |answers| ensures Fold(m, ops, answers + [a], n) == Fold(m, ops, answers, n) {
      FoldMore(m, ops, answers, a, n);
    }
  }

  /** Only names of the application, and no value that ends in a byte that looks erased. */
  predicate Proper(op: Op) { op.Set? ==> EndsSolid(NewRec(op.key, op.value)) }

  /** Any run of sets, deletes and reads answers and ends as a map does. */
  method Run(db: KvDatabase, ops: seq<Op>) returns (answers: seq<Answer>)
    requires db.Valid() && forall i :: 0 <= i < |ops| ==> ops[i].key in db.names
    requires db.steady || forall i :: 0 <= i < |ops| ==> Proper(ops[i])
    modifies db, db.kvCache, db.sectorCache
    ensures db.Valid() && |answers| == |ops| && AllOk(old(db.model), ops, answers)
    ensures db.model == Fold(old(db.model), ops, answers, |ops|)
  {
    hide *;
    answers := [];
    ghost var m := db.model;
    NoOps(m, ops);
    for i := 0 to |ops|
      invariant db.Valid() && |answers| == i && AllOk(m, ops, answers) && db.model == Fold(m, ops, answers, i)
    {
      var a := One(db, ops[i]);
      OneMore(m, ops, answers, a);
      answers := answers + [a];
    }
  }

  lemma NoOps(m: map<Key, Value>, ops: seq<Op>)
    ensures AllOk(m, ops, []) && Fold(m, ops, [], 0) == m
  {
  }

  method One(db: KvDatabase, op: Op) returns (a: Answer)
    requires db.Valid() && op.key in db.names && (db.steady || Proper(op))
    modifies db, db.kvCache, db.sectorCache
    ensures db.Valid() && AnswerOk(old(db.model), op, a) && db.model == After(old(db.model), op, a)
  {
    hide *;
    ghost var m := db.model;
    OneOk(m, op, db.steady);
    match op
    case Set(key, value) =>
      var err := db.SetKv(key, Some(value));
      a := Status(err);
    case Delete(key) =>
      var err := db.SetKv(key, None);
      a := Status(err);
    case Get(key, bufLen) =>
      var data, len := db.GetKv(key, bufLen);
      a := Data(data, len);
  }

  lemma OneOk(m: map<Key, Value>, op: Op, steady: bool)
    ensures op.Set? && (steady || Proper(op)) ==> steady || EndsSolid(NewRec(op.key, op.value))
    ensures op.Set? ==> forall err :: (err == NO_ERR || err == SAVED_FULL || err == KV_NAME_ERR)
                                      && (err != SAVED_FULL ==> (err == NO_ERR <==> |op.key| <= NAME_MAX)) ==>
                          && AnswerOk(m, op, Status(err))
                          && After(m, op, Status(err)) == if err == NO_ERR then m[op.key := op.value] else m
    ensures op.Delete? ==> forall err :: err == (if op.key in m then NO_ERR else KV_NAME_ERR) ==>
                             AnswerOk(m, op, Status(err)) && After(m, op, Status(err)) == m - {op.key}
    ensures op.Get? && op.key !in m ==> AnswerOk(m, op, Data([], 0))
    ensures op.Get? && op.key in m ==>
              AnswerOk(m, op, Data(m[op.key][..if op.bufLen < |m[op.key]| then op.bufLen else |m[op.key]|], |m[op.key]|))
    ensures op.Get? ==> forall a :: After(m, op, a) == m
  {
  }

  /** Any run, one more set or delete cut after any of its steps, and reboots: the map is the one that the run left,
      with or without the last operation. */
  method RunCutReboot(db: KvDatabase, ops: seq<Op>, key: Key, value: Option<Value>, cut: nat, fuel: nat)
    returns (answers: seq<Answer>, content: Flash, again: KvDatabase?, done: bool)
    requires db.Valid() && key in db.names && forall i :: 0 <= i < |ops| ==> ops[i].key in db.names
    requires db.steady || ((forall i :: 0 <= i < |ops| ==> Proper(ops[i])) && (value.None? || EndsSolid(NewRec(key, value.value))))
    modifies db, db.kvCache, db.sectorCache
    ensures |answers| == |ops| && AllOk(old(db.model), ops, answers) && content in db.hist
    ensures again != null <==> Calm(content)
    ensures if db.steady then Steady(content) || LeftBare(content) else Solid(content)
    ensures EmptyCount(content) > 0 ==> SafeAtBoot(content, 0, db.cap)
    ensures again != null && done && SafeAtBoot(content, 0, db.cap) ==>
              && again.Valid()
              && var m := Fold(old(db.model), ops, answers, |ops|); again.model in {m, Changed(m, key, value)}
    ensures again != null && fuel > 0 && PendingDirty(content) ==> done
    ensures value.None? ==> EmptyCount(content) > 0 && PendingDirty(content)
  {
    hide *;
    answers := Run(db, ops);
    ghost var walk;
    content, again, done, walk := CutAndReboot(db, key, value, cut, fuel);
  }
}
