/**
 The throwaway password generator: draw a character, keep it unless it repeats the one before.
 Draws come from a finite stream; the generator has no result when the stream runs out first.
 */
module Password {
  import opened Options

  type Pools = pools: seq<string> | forall pool <- pools :: pool != "" witness []

  const UPPER := "ABCDEFGHJKLMNPQRSTUVWXYZ"
  const LOWER := "abcdefghijkmnopqrstuvwxyz"
  const DIGIT := "23456789"
  const SPECIAL := "#$%&*+-=?@^"
  const POOLS: Pools := [UPPER, LOWER, DIGIT, SPECIAL]
  const LENGTH := 16

  /** `pools.join('')` */
  function All(pools: seq<string>): string {
    if pools == [] then "" else pools[0] + All(pools[1..])
  }

  /** What the character at the given position is drawn from. */
  function Pool(pools: Pools, position: nat): (pool: string)
    requires pools != []
    ensures pool != ""
  {
    assert pools[0] in pools;
    if position < |pools| then assert pools[position] in pools; pools[position] else All(pools)
  }

  predicate NoNeighboursEqual(s: string) {
    forall i :: 0 <= i && i + 1 < |s| ==> Different(s, i)
  }

  predicate Different(s: string, i: nat)
    requires i + 1 < |s|
  {
    s[i] != s[i + 1]
  }

  /** The generator's own shape, of any length: each character from its pool, no repeat. */
  predicate Drawn(pools: Pools, s: string)
    requires pools != []
  {
    NoNeighboursEqual(s) && forall i :: 0 <= i < |s| ==> s[i] in Pool(pools, i)
  }

  /** Some number below the bound: the draw itself when it is one. */
  function RandomInt(draw: nat, bound: nat): (k: nat)
    requires bound > 0
    ensures k < bound
  {
    if draw < bound then draw else 0
  }

  /** `pool[randomInt(pool.length)]` */
  function Candidate(pools: Pools, position: nat, draw: nat): (c: char)
    requires pools != []
    ensures c in Pool(pools, position)
  {
    Pool(pools, position)[RandomInt(draw, |Pool(pools, position)|)]
  }

  predicate Rejected(s: string, candidate: char) {
    s != "" && candidate == s[|s| - 1]
  }

  /** One draw: nothing when the password is long enough, or when the character repeats. */
  function Keep(pools: Pools, s: string, draw: nat): string
    requires pools != []
  {
    var candidate := Candidate(pools, |s|, draw);
    if |s| >= LENGTH || Rejected(s, candidate) then s else s + [candidate]
  }

  /** The characters kept of a stream of draws. */
  function Kept(pools: Pools, draws: seq<nat>): string
    requires pools != []
  {
    if draws == [] then "" else Keep(pools, Kept(pools, draws[..|draws| - 1]), draws[|draws| - 1])
  }

  /** How many of the draws were made and rejected. */
  function Rejections(pools: Pools, draws: seq<nat>): nat
    requires pools != []
  {
    if draws == [] then 0
    else
      var before, draw := Kept(pools, draws[..|draws| - 1]), draws[|draws| - 1];
      Rejections(pools, draws[..|draws| - 1])
      + if |before| < LENGTH && Rejected(before, Candidate(pools, |before|, draw)) then 1 else 0
  }

  lemma KeptSnoc(pools: Pools, draws: seq<nat>, draw: nat)
    requires pools != []
    ensures Kept(pools, draws + [draw]) == Keep(pools, Kept(pools, draws), draw)
    ensures Rejections(pools, draws + [draw])
         == Rejections(pools, draws)
            + if |Kept(pools, draws)| < LENGTH
                 && Rejected(Kept(pools, draws), Candidate(pools, |Kept(pools, draws)|, draw))
              then 1 else 0
  {
  }

  lemma KeepDrawn(pools: Pools, s: string, draw: nat)
    requires pools != [] && Drawn(pools, s) && |s| <= LENGTH
    ensures Drawn(pools, Keep(pools, s, draw)) && |Keep(pools, s, draw)| <= LENGTH
  {
    var t := Keep(pools, s, draw);
    forall i | 0 <= i && i + 1 < |t|
      ensures Different(t, i)
    {
      if i + 1 < |s| {
        assert Different(s, i);
      }
    }
  }

  lemma {:induction false} KeptIsDrawn(pools: Pools, draws: seq<nat>)
    requires pools != []
    ensures Drawn(pools, Kept(pools, draws)) && |Kept(pools, draws)| <= LENGTH
  {
    if draws != [] {
      KeptIsDrawn(pools, draws[..|draws| - 1]);
      KeepDrawn(pools, Kept(pools, draws[..|draws| - 1]), draws[|draws| - 1]);
    }
  }

  lemma {:induction false} KeptStays(pools: Pools, draws: seq<nat>, n: nat)
    requires pools != [] && n <= |draws| && |Kept(pools, draws[..n])| >= LENGTH
    ensures Kept(pools, draws) == Kept(pools, draws[..n])
    decreases |draws|
  {
    if n == |draws| {
      assert draws[..n] == draws;
    } else {
      assert draws[..|draws| - 1][..n] == draws[..n];
      KeptStays(pools, draws[..|draws| - 1], n);
    }
  }

  /** The password as far as n draws have brought it. */
  predicate Reached(pools: Pools, draws: seq<nat>, n: nat, s: string)
    requires pools != []
  {
    n <= |draws| && s == Kept(pools, draws[..n]) && n == |s| + Rejections(pools, draws[..n])
  }

  lemma ReachedNext(pools: Pools, draws: seq<nat>, n: nat, s: string)
    requires pools != [] && n < |draws| && Reached(pools, draws, n, s) && |s| < LENGTH
    ensures Reached(pools, draws, n + 1, Keep(pools, s, draws[n]))
  {
    assert draws[..n + 1] == draws[..n] + [draws[n]];
    KeptSnoc(pools, draws[..n], draws[n]);
  }

  /**
   Draws until the password is complete. Every draw used is either a character of it or rejected,
   and there is no result exactly when the stream does not hold enough draws that are kept.
   */
  method GeneratePassword(pools: Pools, draws: seq<nat>) returns (password: Option<string>, used: nat)
    requires pools != []
    ensures used <= |draws|
    ensures password.Some? <==> |Kept(pools, draws)| == LENGTH
    ensures password.Some? ==>
              && |password.value| == 16 && Drawn(pools, password.value)
              && password.value == Kept(pools, draws[..used])
              && used == 16 + Rejections(pools, draws[..used])
  {
    var characters := "";
    used := 0;
    while |characters| < LENGTH && used < |draws|
      invariant |characters| <= LENGTH && Reached(pools, draws, used, characters)
      decreases |draws| - used
    {
      var candidate := Candidate(pools, |characters|, draws[used]);
      ReachedNext(pools, draws, used, characters);
      if !Rejected(characters, candidate) {
        characters := characters + [candidate];
      }
      used := used + 1;
    }
    if |characters| < LENGTH {
      assert draws[..used] == draws;
      password := None;
    } else {
      KeptStays(pools, draws, used);
      KeptIsDrawn(pools, draws[..used]);
      password := Some(characters);
    }
  }

  // ----- what can come out

  /** Every password of the generator's shape can come out, and no other. */
  lemma DrawnIffReachable(pools: Pools, s: string)
    requires pools != [] && |s| <= LENGTH
    ensures Drawn(pools, s) <==> exists draws :: Kept(pools, draws) == s && |draws| == |s|
  {
    if Drawn(pools, s) {
      var draws := DrawsFor(pools, s);
    }
    if draws :| Kept(pools, draws) == s && |draws| == |s| {
      KeptIsDrawn(pools, draws);
    }
  }

  lemma {:induction false} DrawsFor(pools: Pools, s: string) returns (draws: seq<nat>)
    requires pools != [] && |s| <= LENGTH && Drawn(pools, s)
    ensures Kept(pools, draws) == s && |draws| == |s|
  {
    if s == "" {
      draws := [];
    } else {
      var n := |s| - 1;
      DrawnStart(pools, s);
      var before := DrawsFor(pools, s[..n]);
      var k :| 0 <= k < |Pool(pools, n)| && Pool(pools, n)[k] == s[n];
      draws := before + [k];
      KeptSnoc(pools, before, k);
    }
  }

  lemma DrawnStart(pools: Pools, s: string)
    requires pools != [] && Drawn(pools, s) && s != ""
    ensures var n := |s| - 1;
            && Drawn(pools, s[..n]) && s[n] in Pool(pools, n) && !Rejected(s[..n], s[n])
            && s == s[..n] + [s[n]]
  {
    var t := s[..|s| - 1];
    forall i | 0 <= i && i + 1 < |t|
      ensures Different(t, i)
    {
      assert Different(s, i);
    }
    if t != "" {
      assert Different(s, |t| - 1);
    }
  }

  /** As long as the pools have no character in common, the first draw from each is kept. */
  lemma {:induction false} FirstDrawsKept(pools: Pools, draws: seq<nat>)
    requires pools != [] && |draws| <= |pools| && |draws| <= LENGTH
    requires forall i, j, c :: 0 <= i < j < |pools| && c in pools[i] ==> c !in pools[j]
    ensures |Kept(pools, draws)| == |draws| && Rejections(pools, draws) == 0
  {
    if draws != [] {
      var before := draws[..|draws| - 1];
      FirstDrawsKept(pools, before);
      KeptIsDrawn(pools, before);
      var s := Kept(pools, before);
      if s != "" {
        assert s[|s| - 1] in Pool(pools, |s| - 1);
      }
    }
  }

  // ----- the policy

  /** Every character of the pools is of exactly the class of its pool. */
  lemma PoolClasses(c: char)
    ensures c in UPPER ==> 'A' <= c <= 'Z'
    ensures c in LOWER ==> 'a' <= c <= 'z'
    ensures c in DIGIT ==> '0' <= c <= '9'
    ensures c in SPECIAL ==> IsPunctuation(c)
  {
    Capitals(c);
    SmallLetters(c);
    Digits(c);
    Signs(c);
  }

  /**
   What can stand where: a capital but I and O, then a small letter but l, then a digit from 2 on, then
   one of eleven signs, and after that any of these.
   */
  lemma CharacterAt(position: nat, c: char)
    ensures c in Pool(POOLS, position)
       <==> match position
            case 0 => IsCapital(c)
            case 1 => IsSmall(c)
            case 2 => IsDigit(c)
            case 3 => IsSign(c)
            case _ => IsCapital(c) || IsSmall(c) || IsDigit(c) || IsSign(c)
  {
    Capitals(c);
    SmallLetters(c);
    Digits(c);
    Signs(c);
    AllFromPools(POOLS, c);
    assert POOLS[0] == UPPER && POOLS[1] == LOWER && POOLS[2] == DIGIT && POOLS[3] == SPECIAL;
  }

  predicate IsCapital(c: char) {
    'A' <= c <= 'Z' && c != 'I' && c != 'O'
  }

  predicate IsSmall(c: char) {
    'a' <= c <= 'z' && c != 'l'
  }

  predicate IsDigit(c: char) {
    '2' <= c <= '9'
  }

  predicate IsSign(c: char) {
    || c == '#' || c == '$' || c == '%' || c == '&' || c == '*' || c == '+'
    || c == '-' || c == '=' || c == '?' || c == '@' || c == '^'
  }

  /** From the fifth character on all pools are drawn from, each character as often as it is in them. */
  lemma UnionOfPools(position: nat)
    requires position >= 4
    ensures Pool(POOLS, position) == UPPER + LOWER + DIGIT + SPECIAL
  {
    assert POOLS[1..] == [LOWER, DIGIT, SPECIAL] && POOLS[1..][1..] == [DIGIT, SPECIAL];
    assert [DIGIT, SPECIAL][1..] == [SPECIAL] && [SPECIAL][1..] == [];
    assert All([SPECIAL]) == SPECIAL + All([]) && All([DIGIT, SPECIAL]) == DIGIT + All([SPECIAL]);
    assert All(POOLS[1..]) == LOWER + All([DIGIT, SPECIAL]);
    assert All(POOLS) == UPPER + All(POOLS[1..]);
  }

  lemma Capitals(c: char)
    ensures c in UPPER <==> IsCapital(c)
  {
  }

  lemma SmallLetters(c: char)
    ensures c in LOWER <==> IsSmall(c)
  {
  }

  lemma Digits(c: char)
    ensures c in DIGIT <==> IsDigit(c)
  {
  }

  lemma Signs(c: char)
    ensures c in SPECIAL <==> IsSign(c)
  {
  }

  /** The pools are disjoint, so the first four draws are never rejected. */
  lemma FirstFourKept(draws: seq<nat>)
    requires |draws| <= 4
    ensures |Kept(POOLS, draws)| == |draws| && Rejections(POOLS, draws) == 0
  {
    forall i, j, c | 0 <= i < j < |POOLS| && c in POOLS[i]
      ensures c !in POOLS[j]
    {
      PoolClasses(c);
    }
    FirstDrawsKept(POOLS, draws);
  }

  /** `\s` within the first 256 characters */
  predicate IsSpace(c: char) {
    '\t' <= c <= '\r' || c == ' ' || c == '\U{a0}'
  }

  /** `[^\w\s]` */
  predicate IsPunctuation(c: char) {
    !('A' <= c <= 'Z') && !('a' <= c <= 'z') && !('0' <= c <= '9') && c != '_' && !IsSpace(c)
  }

  /** Fineract's password policy. */
  predicate Policy(s: string) {
    && 12 <= |s| <= 50
    && NoNeighboursEqual(s)
    && (forall i :: 0 <= i < |s| ==> !IsSpace(s[i]))
    && (exists i :: 0 <= i < |s| && '0' <= s[i] <= '9')
    && (exists i :: 0 <= i < |s| && 'a' <= s[i] <= 'z')
    && (exists i :: 0 <= i < |s| && 'A' <= s[i] <= 'Z')
    && (exists i :: 0 <= i < |s| && IsPunctuation(s[i]))
  }

  lemma {:induction false} AllFromPools(pools: seq<string>, c: char)
    ensures c in All(pools) <==> exists pool <- pools :: c in pool
  {
    if pools != [] {
      AllFromPools(pools[1..], c);
      if c in pools[0] {
        assert pools[0] in pools;
      }
      assert forall pool <- pools :: pool == pools[0] || pool in pools[1..];
    }
  }

  lemma InSomePool(c: char, position: nat)
    requires c in Pool(POOLS, position)
    ensures !IsSpace(c)
  {
    PoolClasses(c);
    AllFromPools(POOLS, c);
  }

  /** Whatever is drawn meets the policy, with one character of each class in the first four. */
  lemma DrawnMeetsPolicy(s: string)
    requires Drawn(POOLS, s) && |s| == LENGTH
    ensures Policy(s)
    ensures 'A' <= s[0] <= 'Z' && 'a' <= s[1] <= 'z' && '0' <= s[2] <= '9' && IsPunctuation(s[3])
  {
    forall i | 0 <= i < |s|
      ensures !IsSpace(s[i])
    {
      InSomePool(s[i], i);
    }
    PoolClasses(s[0]);
    PoolClasses(s[1]);
    PoolClasses(s[2]);
    PoolClasses(s[3]);
    assert s[0] in Pool(POOLS, 0) && s[1] in Pool(POOLS, 1);
    assert s[2] in Pool(POOLS, 2) && s[3] in Pool(POOLS, 3);
  }
}
