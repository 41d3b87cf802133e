/** The mocked client search: a filter, and one page of what passes it. */
module ClientSearch {
  /** The fields of a client that are there and not null, as text. */
  type Client = map<string, string>

  const SEARCHED := ["displayName", "accountNumber", "externalId", "mobileNo"]

  /** `{ ...client, accountNumber: client['accountNo'] }` */
  function Renamed(client: Client): Client {
    if "accountNo" in client then client["accountNumber" := client["accountNo"]]
    else client - {"accountNumber"}
  }

  predicate Includes(s: string, part: string) {
    exists i :: 0 <= i <= |s| && part <= s[i..]
  }

  predicate IsHit(client: Client, text: string, lower: string -> string) {
    exists key <- SEARCHED ::
      Includes(lower(if key in Renamed(client) then Renamed(client)[key] else ""), text)
  }

  function Matches(clients: seq<Client>, text: string, lower: string -> string): seq<Client> {
    if clients == [] then []
    else
      Matches(clients[..|clients| - 1], text, lower)
      + if IsHit(clients[|clients| - 1], text, lower) then [Renamed(clients[|clients| - 1])] else []
  }

  /** `Array.prototype.slice`: negative positions count from the end, all are kept in range. */
  function Position(k: int, length: nat): (p: nat)
    ensures p <= length
  {
    if k < 0 then if length + k < 0 then 0 else length + k
    else if k > length then length else k
  }

  function Slice<T>(s: seq<T>, from: int, to: int): seq<T> {
    var a, b := Position(from, |s|), Position(to, |s|);
    if a <= b then s[a..b] else []
  }

  function Page<T>(matches: seq<T>, index: int, size: int): seq<T> {
    Slice(matches, index * size, (index + 1) * size)
  }

  function Pages<T>(matches: seq<T>, count: nat, size: int): seq<T> {
    if count == 0 then [] else Pages(matches, count - 1, size) + Page(matches, count - 1, size)
  }

  lemma PageBounds(index: nat, size: nat)
    ensures 0 <= index * size <= (index + 1) * size == index * size + size
  {
  }

  lemma {:induction false} PagesAreStart<T>(matches: seq<T>, count: nat, size: nat)
    requires size > 0
    ensures Pages(matches, count, size) == matches[..Position(count * size, |matches|)]
  {
    if count > 0 {
      PagesAreStart(matches, count - 1, size);
      PageBounds(count - 1, size);
    }
  }

  /** The pages, one after another, are exactly the matches, once there are enough of them. */
  lemma PagesAreMatches<T>(matches: seq<T>, count: nat, size: nat)
    requires size > 0 && count * size >= |matches|
    ensures Pages(matches, count, size) == matches
  {
    PagesAreStart(matches, count, size);
    assert matches[..|matches|] == matches;
  }

  /** The positions of the matches that a page shows. */
  predicate Shows(index: nat, size: nat, i: nat) {
    index * size <= i < (index + 1) * size
  }

  lemma ShowsOnlyQuotient(index: nat, size: nat, i: nat)
    requires size > 0
    ensures Shows(index, size, i) <==> index == i / size
  {
    var q := i / size;
    assert q * size <= i < q * size + size by {
      assert i == q * size + i % size;
    }
    PageBounds(q, size);
    PageBounds(index, size);
    if index < q {
      assert (index + 1) * size <= q * size by {
        Increasing(index + 1, q, size);
      }
    } else if index > q {
      assert (q + 1) * size <= index * size by {
        Increasing(q + 1, index, size);
      }
    }
  }

  lemma Increasing(a: nat, b: nat, size: nat)
    requires a <= b
    ensures a * size <= b * size
  {
  }

  /** Every match is on exactly one page, the one its position divided by the size names. */
  lemma EachMatchOnOnePage<T>(matches: seq<T>, size: nat, i: nat)
    requires size > 0 && i < |matches|
    ensures forall index: nat :: Shows(index, size, i) <==> index == i / size
    ensures i % size < |Page(matches, i / size, size)|
    ensures Page(matches, i / size, size)[i % size] == matches[i]
  {
    forall index: nat
      ensures Shows(index, size, i) <==> index == i / size
    {
      ShowsOnlyQuotient(index, size, i);
    }
    var q := i / size;
    PageBounds(q, size);
    assert i == q * size + i % size;
  }

  /** A client is among the matches exactly when one of its searched fields contains the text. */
  lemma {:induction false} MatchesAreHits(clients: seq<Client>, text: string, lower: string -> string,
                                          found: Client)
    ensures found in Matches(clients, text, lower)
       <==> exists client <- clients :: found == Renamed(client) && IsHit(client, text, lower)
  {
    if clients != [] {
      var before, last := clients[..|clients| - 1], clients[|clients| - 1];
      MatchesAreHits(before, text, lower, found);
      assert clients == before + [last];
    }
  }

  lemma MatchesOne(client: Client, text: string, lower: string -> string)
    ensures Matches([client], text, lower) == if IsHit(client, text, lower) then [Renamed(client)] else []
  {
    assert [client][..0] == [];
    assert Matches([client][..0], text, lower) == [];
  }

  /** The matches keep the order of the clients, and each client is decided by itself. */
  lemma {:induction false} MatchesInOrder(a: seq<Client>, b: seq<Client>, text: string, lower: string -> string)
    ensures Matches(a + b, text, lower) == Matches(a, text, lower) + Matches(b, text, lower)
  {
    if b == [] {
      assert a + b == a;
    } else {
      assert (a + b)[..|a + b| - 1] == a + b[..|b| - 1];
      MatchesInOrder(a, b[..|b| - 1], text, lower);
    }
  }

  // ----- what a hit is

  lemma IncludesIff(s: string, part: string)
    ensures Includes(s, part) <==> exists before, after :: s == before + part + after
  {
    if i :| 0 <= i <= |s| && part <= s[i..] {
      assert s == s[..i] + part + s[i..][|part|..];
    }
    if before, after :| s == before + part + after {
      assert s[|before|..] == part + after;
    }
  }

  function TextOf(client: Client, key: string): string {
    if key in client then client[key] else ""
  }

  /** The text is somewhere in what the given field of the client is in lower case. */
  ghost predicate Occurs(text: string, client: Client, key: string, lower: string -> string) {
    exists before, after :: lower(TextOf(client, key)) == before + text + after
  }

  /**
   A client is a hit exactly when its name, its account number, its external id or its mobile number
   has the text in it.
   */
  lemma HitIff(client: Client, text: string, lower: string -> string)
    ensures IsHit(client, text, lower)
       <==> || Occurs(text, client, "displayName", lower)
            || Occurs(text, client, "accountNo", lower)
            || Occurs(text, client, "externalId", lower)
            || Occurs(text, client, "mobileNo", lower)
  {
    IncludesIff(lower(TextOf(client, "displayName")), text);
    IncludesIff(lower(TextOf(client, "accountNo")), text);
    IncludesIff(lower(TextOf(client, "externalId")), text);
    IncludesIff(lower(TextOf(client, "mobileNo")), text);
    RenamedFields(client, "displayName");
    RenamedFields(client, "externalId");
    RenamedFields(client, "mobileNo");
    RenamedFields(client, "accountNumber");
    assert SEARCHED[0] == "displayName" && SEARCHED[1] == "accountNumber";
    assert SEARCHED[2] == "externalId" && SEARCHED[3] == "mobileNo";
  }

  /** Only the account number is changed: it is what the client has as `accountNo`, or not there. */
  lemma RenamedFields(client: Client, key: string)
    ensures TextOf(Renamed(client), key)
         == TextOf(client, if key == "accountNumber" then "accountNo" else key)
    ensures key in Renamed(client) <==> (if key == "accountNumber" then "accountNo" else key) in client
  {
  }

  // ----- pages that do not count from the start

  lemma SliceFromTheEnd<T>(s: seq<T>, from: int, to: int)
    requires 0 <= to <= from <= |s|
    ensures Slice(s, -from, -to) == if to == 0 then [] else s[|s| - from..|s| - to]
  {
  }

  lemma Negated(k: int, size: int)
    ensures -k * size == -((k - 1) * size) - size && (-k + 1) * size == -((k - 1) * size)
  {
    assert -k + 1 == -(k - 1);
  }

  /** Page -1 is empty, and page -k, for k > 1, shows the k-th page's worth from the end. */
  lemma PagesFromTheEnd<T>(matches: seq<T>, k: int, size: int, after: int)
    requires after == (k - 1) * size && size > 0 && 0 <= after <= |matches| - size
    ensures Page(matches, -k, size)
         == if after == 0 then [] else matches[|matches| - after - size..|matches| - after]
  {
    Negated(k, size);
    SliceFromTheEnd(matches, after + size, after);
  }
}
