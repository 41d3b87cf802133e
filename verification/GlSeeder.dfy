/**
 Seeding the GL accounts a product maps: six of each class, reusing what earlier runs left on the
 server. A run may be cut short after any number of posts.
 */
module GlSeeder {
  import opened Options
  import opened Text

  /** `kind` is the id of the account's type: 1 asset, 2 liability, 4 income, 5 expense. */
  datatype Account = Account(id: nat, glCode: string, kind: nat)

  const PREFIX := "E2E-ACC-"
  const WANTED := 6

  predicate IsKind(kind: nat) {
    kind == 1 || kind == 2 || kind == 4 || kind == 5
  }

  function Code(kind: nat, index: nat): string {
    PREFIX + Decimal(kind) + "-" + Decimal(index)
  }

  /** `byType`: the ids of the class's accounts whose codes have the prefix. */
  function ByType(accounts: seq<Account>, kind: nat): seq<nat> {
    if accounts == [] then []
    else
      var last := accounts[|accounts| - 1];
      ByType(accounts[..|accounts| - 1], kind)
      + if last.kind == kind && PREFIX <= last.glCode then [last.id] else []
  }

  function Count(accounts: seq<Account>, kind: nat): nat {
    |ByType(accounts, kind)|
  }

  predicate HasCode(accounts: seq<Account>, code: string) {
    exists account <- accounts :: account.glCode == code
  }

  predicate Has(accounts: seq<Account>, kind: nat, index: nat) {
    HasCode(accounts, Code(kind, index))
  }

  /** The class's codes on the server are those numbered 1 to however many accounts it has. */
  ghost predicate Contiguous(accounts: seq<Account>, kind: nat) {
    forall i: nat :: Has(accounts, kind, i) <==> 1 <= i <= Count(accounts, kind)
  }

  ghost predicate AllContiguous(accounts: seq<Account>) {
    forall kind: nat :: IsKind(kind) ==> Contiguous(accounts, kind)
  }

  /** One of the codes a class still needs is taken. */
  ghost predicate Blocked(accounts: seq<Account>) {
    exists kind: nat, i: nat ::
      IsKind(kind) && Count(accounts, kind) < i <= WANTED && Has(accounts, kind, i)
  }

  // ----- codes

  lemma CodeParts(kind: nat, index: nat)
    ensures Split(Code(kind, index), '-') == ["E2E", "ACC", Decimal(kind), Decimal(index)]
  {
    DecimalReadsBack(kind);
    DecimalReadsBack(index);
    SplitJoin(["E2E", "ACC", Decimal(kind), Decimal(index)], '-');
    assert PREFIX == "E2E" + "-" + "ACC" + "-";
    JoinFour("E2E", "ACC", Decimal(kind), Decimal(index));
  }

  lemma JoinFour(a: string, b: string, c: string, d: string)
    ensures Join([a, b, c, d], "-") == a + "-" + b + "-" + c + "-" + d
  {
    assert [a, b, c, d][1..] == [b, c, d] && [b, c, d][1..] == [c, d] && [c, d][1..] == [d];
    assert Join([c, d], "-") == c + "-" + d;
    assert Join([b, c, d], "-") == b + "-" + Join([c, d], "-");
    assert Join([a, b, c, d], "-") == a + "-" + Join([b, c, d], "-");
  }

  /** No two classes and no two numbers share a code. */
  lemma CodeInjective(kind: nat, index: nat, kind': nat, index': nat)
    requires Code(kind, index) == Code(kind', index')
    ensures kind == kind' && index == index'
  {
    CodeParts(kind, index);
    CodeParts(kind', index');
    var a, b := Split(Code(kind, index), '-'), Split(Code(kind', index'), '-');
    assert a[2] == b[2] && a[3] == b[3];
    DecimalReadsBack(kind);
    DecimalReadsBack(kind');
    DecimalReadsBack(index);
    DecimalReadsBack(index');
  }

  /** The codes as they are written. */
  lemma CodeText(kind: nat, index: nat)
    requires kind < 10 && index < 10
    ensures Code(kind, index) == "E2E-ACC-" + ['0' + kind as char] + "-" + ['0' + index as char]
  {
  }

  // ----- how far the accounts have come

  /**
   From the accounts a run began with to those there are now: only missing accounts of the four
   classes have been added, each under the next number, which was free, and none beyond the sixth.
   */
  ghost predicate Grown(start: seq<Account>, now: seq<Account>) {
    && start <= now
    && (forall kind: nat :: IsKind(kind) ==>
          Count(start, kind) <= Count(now, kind)
          && (Count(start, kind) < Count(now, kind) ==> Count(now, kind) <= WANTED))
    && (forall kind: nat, i: nat :: IsKind(kind) ==>
          (Has(now, kind, i) <==> Has(start, kind, i) || Count(start, kind) < i <= Count(now, kind)))
    && (forall kind: nat, i: nat :: IsKind(kind) && Count(start, kind) < i <= Count(now, kind) ==>
          !Has(start, kind, i))
  }

  lemma CountAfter(accounts: seq<Account>, account: Account, kind: nat)
    ensures ByType(accounts + [account], kind)
         == ByType(accounts, kind)
            + if account.kind == kind && PREFIX <= account.glCode then [account.id] else []
  {
  }

  lemma HasAfter(accounts: seq<Account>, account: Account, kind: nat, i: nat)
    ensures Has(accounts + [account], kind, i)
       <==> Has(accounts, kind, i) || account.glCode == Code(kind, i)
  {
  }

  lemma CodeHasPrefix(kind: nat, index: nat)
    ensures PREFIX <= Code(kind, index)
  {
  }

  /** Adding the next account of a class, when its code is free, is growth. */
  lemma GrowOne(start: seq<Account>, now: seq<Account>, kind: nat, id: nat)
    requires Grown(start, now) && IsKind(kind) && Count(now, kind) < WANTED
    requires !Has(now, kind, Count(now, kind) + 1)
    ensures Grown(start, now + [Account(id, Code(kind, Count(now, kind) + 1), kind)])
  {
    var n := Count(now, kind) + 1;
    var account := Account(id, Code(kind, n), kind);
    var more := now + [account];
    CodeHasPrefix(kind, n);
    forall other: nat | IsKind(other)
      ensures Count(more, other) == Count(now, other) + if other == kind then 1 else 0
    {
      CountAfter(now, account, other);
    }
    forall other: nat, i: nat | IsKind(other)
      ensures Has(more, other, i) <==> Has(now, other, i) || (other == kind && i == n)
    {
      HasAfter(now, account, other, i);
      if account.glCode == Code(other, i) {
        CodeInjective(kind, n, other, i);
      }
    }
  }

  /** Stopping anywhere leaves the codes contiguous if they were. */
  lemma GrownContiguous(start: seq<Account>, now: seq<Account>)
    requires AllContiguous(start) && Grown(start, now)
    ensures AllContiguous(now)
  {
  }

  /** Contiguous codes block nothing: every code that is posted is fresh. */
  lemma ContiguousNotBlocked(accounts: seq<Account>)
    requires AllContiguous(accounts)
    ensures !Blocked(accounts)
  {
  }

  // ----- the run

  /** The server refuses a code that is taken. */
  class Server {
    var accounts: seq<Account>
    var nextId: nat

    constructor (accounts: seq<Account>, nextId: nat)
      ensures this.accounts == accounts && this.nextId == nextId
    {
      this.accounts, this.nextId := accounts, nextId;
    }

    method Post(glCode: string, kind: nat) returns (id: Option<nat>)
      modifies this
      ensures id.None? <==> HasCode(old(accounts), glCode)
      ensures id.None? ==> accounts == old(accounts)
      ensures id.Some? ==> accounts == old(accounts) + [Account(id.value, glCode, kind)]
    {
      if exists account <- accounts :: account.glCode == glCode {
        id := None;
      } else {
        id := Some(nextId);
        accounts := accounts + [Account(nextId, glCode, kind)];
        nextId := nextId + 1;
      }
    }
  }

  datatype Outcome = Done | Refused | CutShort

  /** Accounts of one class only have been added at the end. */
  ghost predicate OnlyKind(before: seq<Account>, now: seq<Account>, kind: nat) {
    && before <= now
    && |now| - |before| == Count(now, kind) - Count(before, kind)
    && forall other: nat :: other != kind ==> ByType(now, other) == ByType(before, other)
  }

  lemma OnlyKindOne(before: seq<Account>, now: seq<Account>, account: Account)
    requires OnlyKind(before, now, account.kind) && PREFIX <= account.glCode
    ensures OnlyKind(before, now + [account], account.kind)
  {
  }

  /** One post of the loop: the next account of the class. */
  method PostNext(server: Server, ghost start: seq<Account>, ghost before: seq<Account>, kind: nat,
                  ids: seq<nat>) returns (id: Option<nat>)
    requires IsKind(kind) && Grown(start, server.accounts) && OnlyKind(before, server.accounts, kind)
    requires ids == ByType(server.accounts, kind) && |ids| < WANTED
    modifies server
    ensures Grown(start, server.accounts) && OnlyKind(before, server.accounts, kind)
    ensures id.None? ==>
              server.accounts == old(server.accounts) && Blocked(start)
    ensures id.Some? ==>
              && |server.accounts| == |old(server.accounts)| + 1
              && ByType(server.accounts, kind) == ids + [id.value]
  {
    var index := |ids| + 1;
    ghost var now := server.accounts;
    id := server.Post(Code(kind, index), kind);
    if id.Some? {
      ghost var account := Account(id.value, Code(kind, index), kind);
      assert index == Count(now, kind) + 1 && server.accounts == now + [account];
      assert !Has(now, kind, index);
      GrowOne(start, now, kind, id.value);
      CodeHasPrefix(kind, index);
      OnlyKindOne(before, now, account);
      CountAfter(now, account, kind);
    } else {
      RefusalIsBlocked(start, now, kind);
    }
  }

  /**
   The loop of one class, over the ids found for it; `budget` is how many posts there are before
   the run is cut short.
   */
  method SeedClass(server: Server, ghost start: seq<Account>, kind: nat, found: seq<nat>, budget: nat)
    returns (ids: seq<nat>, left: nat, outcome: Outcome)
    requires IsKind(kind) && Grown(start, server.accounts) && found == ByType(server.accounts, kind)
    modifies server
    ensures Grown(start, server.accounts) && OnlyKind(old(server.accounts), server.accounts, kind)
    ensures ids == ByType(server.accounts, kind) && |ids| == |found| + (budget - left)
    ensures |found| >= WANTED ==> outcome.Done? && left == budget
    ensures left < budget ==> |ids| <= WANTED
    ensures outcome.Done? <==> |ids| >= WANTED
    ensures outcome.Refused? ==> Blocked(start)
    ensures outcome.CutShort? ==> left == 0
  {
    ids, left, outcome := found, budget, Done;
    ghost var before := server.accounts;
    while |ids| < WANTED
      invariant Grown(start, server.accounts) && OnlyKind(before, server.accounts, kind)
      invariant ids == ByType(server.accounts, kind)
      invariant left <= budget && |ids| == |found| + (budget - left)
      invariant left < budget ==> |ids| <= WANTED
      decreases WANTED - |ids|
    {
      if left == 0 {
        outcome := CutShort;
        return;
      }
      var id := PostNext(server, start, before, kind, ids);
      if id.None? {
        outcome := Refused;
        return;
      }
      ids, left := ids + [id.value], left - 1;
    }
  }

  datatype SeededGlAccounts = SeededGlAccounts(asset: seq<nat>, liability: seq<nat>, income: seq<nat>,
                                               expense: seq<nat>)

  ghost predicate Complete(accounts: seq<Account>) {
    forall kind: nat :: IsKind(kind) ==> Count(accounts, kind) >= WANTED
  }

  lemma GrownFromItself(accounts: seq<Account>)
    ensures Grown(accounts, accounts)
  {
  }

  /** A refusal comes from a code that was taken when the run began. */
  lemma RefusalIsBlocked(start: seq<Account>, now: seq<Account>, kind: nat)
    requires Grown(start, now) && IsKind(kind) && Count(now, kind) < WANTED
    requires Has(now, kind, Count(now, kind) + 1)
    ensures Blocked(start)
  {
  }

  /** When every class is full, none of the codes it needed was taken. */
  lemma CompleteNotBlocked(start: seq<Account>, now: seq<Account>)
    requires Grown(start, now) && Complete(now)
    ensures !Blocked(start)
  {
  }

  /** How many accounts of a class there are in the end, six of them at least. */
  function Filled(before: nat): nat {
    if before < 6 then 6 else before
  }

  lemma SixOfEach(start: seq<Account>, now: seq<Account>, kind: nat)
    requires Grown(start, now) && Complete(now) && IsKind(kind)
    ensures |ByType(now, kind)| == Filled(|ByType(start, kind)|)
  {
    assert Count(start, kind) <= Count(now, kind);
  }

  /** Where the loop over the classes stands: how many are full, and what is left to post. */
  ghost predicate Standing(start: seq<Account>, now: seq<Account>, ids: map<nat, seq<nat>>, i: nat,
                           budget: nat, left: nat)
    requires i <= |KINDS|
  {
    && Reached(start, now, ids, i)
    && left <= budget && |now| == |start| + (budget - left)
    && (Complete(start) ==> now == start)
  }

  /** One class of the loop. */
  method SeedNext(server: Server, ghost start: seq<Account>, ids: map<nat, seq<nat>>, i: nat,
                  ghost budget: nat, left: nat)
    returns (more: map<nat, seq<nat>>, rest: nat, outcome: Outcome)
    requires i < |KINDS| && Standing(start, server.accounts, ids, i, budget, left)
    modifies server
    ensures Standing(start, server.accounts, more, if outcome.Done? then i + 1 else i, budget, rest)
    ensures left - WANTED <= rest <= left
    ensures Complete(server.accounts) ==> outcome.Done?
    ensures outcome.Refused? ==> Blocked(start)
    ensures outcome.CutShort? ==> rest == 0 && left < WANTED
  {
    ghost var before := server.accounts;
    var seeded;
    seeded, rest, outcome := SeedClass(server, start, KINDS[i], ids[KINDS[i]], left);
    more := ids[KINDS[i] := seeded];
    ReachedNext(start, before, server.accounts, ids, i, seeded);
  }

  /** The loop over the classes. */
  method SeedClasses(server: Server, budget: nat, ghost start: seq<Account>)
    returns (ids: map<nat, seq<nat>>, left: nat, outcome: Outcome)
    requires start == server.accounts
    modifies server
    ensures Standing(start, server.accounts, ids, if outcome.Done? then |KINDS| else 0, budget, left)
    ensures Complete(server.accounts) ==> outcome.Done?
    ensures outcome.Refused? ==> Blocked(start)
    ensures outcome.CutShort? ==> left == 0 && budget < |KINDS| * WANTED
  {
    ids := map kind: nat | kind in KINDS :: ByType(server.accounts, kind);
    left, outcome := budget, Done;
    GrownFromItself(start);
    for i := 0 to |KINDS|
      invariant Standing(start, server.accounts, ids, i, budget, left) && outcome.Done?
      invariant budget - left <= i * WANTED
    {
      ids, left, outcome := SeedNext(server, start, ids, i, budget, left);
      if !outcome.Done? {
        return;
      }
    }
  }

  /**
   The whole run. It is refused only if a needed code was taken, and completes only if none was; it
   keeps contiguous codes contiguous wherever it stops, and posts nothing when nothing is missing.
   */
  method SeedGlAccounts(server: Server, budget: nat)
    returns (seeded: Option<SeededGlAccounts>, left: nat, outcome: Outcome)
    modifies server
    ensures Grown(old(server.accounts), server.accounts)
    ensures left <= budget && |server.accounts| == |old(server.accounts)| + (budget - left)
    ensures outcome.Done? <==> Complete(server.accounts)
    ensures outcome.Done? ==> !Blocked(old(server.accounts))
    ensures outcome.Refused? ==> Blocked(old(server.accounts))
    ensures outcome.CutShort? ==> left == 0 && budget < |KINDS| * WANTED
    ensures Complete(old(server.accounts)) ==> server.accounts == old(server.accounts)
    ensures AllContiguous(old(server.accounts)) ==> AllContiguous(server.accounts) && !outcome.Refused?
    ensures outcome.Done? ==>
              seeded == Some(SeededGlAccounts(ByType(server.accounts, 1), ByType(server.accounts, 2),
                                              ByType(server.accounts, 4), ByType(server.accounts, 5)))
    ensures outcome.Done? ==>
              && |seeded.value.asset| == Filled(|ByType(old(server.accounts), 1)|)
              && |seeded.value.liability| == Filled(|ByType(old(server.accounts), 2)|)
              && |seeded.value.income| == Filled(|ByType(old(server.accounts), 4)|)
              && |seeded.value.expense| == Filled(|ByType(old(server.accounts), 5)|)
  {
    ghost var start := server.accounts;
    var ids: map<nat, seq<nat>>;
    ids, left, outcome := SeedClasses(server, budget, start);
    Stopped(start, server.accounts, outcome);
    if outcome.Done? {
      AllReached(start, server.accounts, ids);
      SixOfEach(start, server.accounts, 1);
      SixOfEach(start, server.accounts, 2);
      SixOfEach(start, server.accounts, 4);
      SixOfEach(start, server.accounts, 5);
      seeded := Some(SeededGlAccounts(ids[1], ids[2], ids[4], ids[5]));
    } else {
      seeded := None;
    }
  }

  const KINDS: seq<nat> := [1, 2, 4, 5]

  /** The ids are those of the server's accounts, and the first i classes are full. */
  ghost predicate Reached(start: seq<Account>, now: seq<Account>, ids: map<nat, seq<nat>>, i: nat)
    requires i <= |KINDS|
  {
    && Grown(start, now)
    && (forall kind <- KINDS :: kind in ids && ids[kind] == ByType(now, kind))
    && (forall j :: 0 <= j < i ==> Count(now, KINDS[j]) >= WANTED)
  }

  lemma ReachedNext(start: seq<Account>, before: seq<Account>, now: seq<Account>,
                    ids: map<nat, seq<nat>>, i: nat, more: seq<nat>)
    requires i < |KINDS| && Reached(start, before, ids, i)
    requires Grown(start, now) && OnlyKind(before, now, KINDS[i]) && more == ByType(now, KINDS[i])
    ensures Reached(start, now, ids[KINDS[i] := more], i)
    ensures |more| >= WANTED ==> Reached(start, now, ids[KINDS[i] := more], i + 1)
    ensures Complete(now) ==> |more| >= WANTED
  {
    forall j | 0 <= j < i
      ensures Count(now, KINDS[j]) >= WANTED
    {
      assert KINDS[j] != KINDS[i];
    }
  }

  lemma AllReached(start: seq<Account>, now: seq<Account>, ids: map<nat, seq<nat>>)
    requires Reached(start, now, ids, |KINDS|)
    ensures Complete(now) && !Blocked(start)
    ensures forall kind <- KINDS :: kind in ids && ids[kind] == ByType(now, kind)
    ensures 1 in KINDS && 2 in KINDS && 4 in KINDS && 5 in KINDS
  {
    assert KINDS[0] == 1 && KINDS[1] == 2 && KINDS[2] == 4 && KINDS[3] == 5;
    assert Complete(now);
    CompleteNotBlocked(start, now);
  }

  /** What holds wherever the run stops. */
  lemma Stopped(start: seq<Account>, now: seq<Account>, outcome: Outcome)
    requires Grown(start, now) && (outcome.Refused? ==> Blocked(start))
    ensures AllContiguous(start) ==> AllContiguous(now) && !outcome.Refused?
  {
  }

  /**
   From contiguous codes, a run that is cut short anywhere leaves contiguous codes; the next run,
   with posts enough, finishes the job from there; and a third posts nothing.
   */
  method CutShortThenResumed(server: Server, posts: nat, budget: nat)
    returns (second: Outcome, third: Outcome,
             ghost interrupted: seq<Account>, ghost finished: seq<Account>)
    requires AllContiguous(server.accounts) && budget >= |KINDS| * WANTED
    modifies server
    ensures old(server.accounts) <= interrupted <= finished && |interrupted| <= |old(server.accounts)| + posts
    ensures AllContiguous(interrupted)
    ensures second.Done? && Complete(finished) && AllContiguous(finished)
    ensures third.Done? && server.accounts == finished
  {
    var _, _, _ := SeedGlAccounts(server, posts);
    interrupted := server.accounts;
    var _, _, done := SeedGlAccounts(server, budget);
    finished := server.accounts;
    var _, _, again := SeedGlAccounts(server, budget);
    second, third := done, again;
  }
}
