/** Splitting and joining, as `String.prototype.split` and `Array.prototype.join` do it. */
module Text {
  function Split(s: string, separator: char): (parts: seq<string>)
    ensures parts != []
  {
    if s == "" then [""]
    else
      var rest := Split(s[1..], separator);
      if s[0] == separator then [""] + rest else [[s[0]] + rest[0]] + rest[1..]
  }

  function Join(parts: seq<string>, separator: string): string {
    if parts == [] then ""
    else if |parts| == 1 then parts[0]
    else parts[0] + separator + Join(parts[1..], separator)
  }

  predicate Without(s: string, c: char) {
    forall i :: 0 <= i < |s| ==> s[i] != c
  }

  lemma {:induction false} SplitWithout(s: string, separator: char)
    requires Without(s, separator)
    ensures Split(s, separator) == [s]
  {
    if s != "" {
      SplitWithout(s[1..], separator);
      assert [s[0]] + s[1..] == s;
    }
  }

  /** The parts when one more character comes before the first. */
  function Prefixed(c: char, parts: seq<string>, separator: char): seq<string>
    requires parts != []
  {
    if c == separator then [""] + parts else [[c] + parts[0]] + parts[1..]
  }

  lemma SplitCons(c: char, s: string, separator: char)
    ensures Split([c] + s, separator) == Prefixed(c, Split(s, separator), separator)
  {
    assert ([c] + s)[1..] == s;
  }

  lemma PrefixedAppend(c: char, a: seq<string>, b: seq<string>, separator: char)
    requires a != []
    ensures Prefixed(c, a + b, separator) == Prefixed(c, a, separator) + b
  {
    assert (a + b)[1..] == a[1..] + b;
  }

  /** Splitting at a separator splits the text on either side of it. */
  lemma {:induction false} SplitAt(a: string, separator: char, b: string)
    ensures Split(a + [separator] + b, separator) == Split(a, separator) + Split(b, separator)
  {
    var s := a + [separator] + b;
    if a == "" {
      assert s[1..] == b;
    } else {
      SplitAt(a[1..], separator, b);
      assert a == [a[0]] + a[1..];
      assert s == [a[0]] + (a[1..] + [separator] + b);
      SplitCons(a[0], a[1..], separator);
      SplitCons(a[0], a[1..] + [separator] + b, separator);
      PrefixedAppend(a[0], Split(a[1..], separator), Split(b, separator), separator);
    }
  }

  lemma {:induction false} SplitJoin(parts: seq<string>, separator: char)
    requires parts != [] && forall i :: 0 <= i < |parts| ==> Without(parts[i], separator)
    ensures Split(Join(parts, [separator]), separator) == parts
  {
    SplitWithout(parts[0], separator);
    if |parts| > 1 {
      SplitJoin(parts[1..], separator);
      SplitAt(parts[0], separator, Join(parts[1..], [separator]));
    }
  }

  lemma {:induction false} JoinWithout(parts: seq<string>, separator: string, c: char)
    requires Without(separator, c) && forall i :: 0 <= i < |parts| ==> Without(parts[i], c)
    ensures Without(Join(parts, separator), c)
  {
    if |parts| > 1 {
      JoinWithout(parts[1..], separator, c);
    }
  }

  /** A join of at least two parts contains its separator. */
  lemma JoinContains(parts: seq<string>, separator: char)
    requires |parts| > 1
    ensures !Without(Join(parts, [separator]), separator)
  {
    assert Join(parts, [separator])[|parts[0]|] == separator;
  }

  lemma {:induction false} SplitParts(s: string, separator: char)
    ensures forall part <- Split(s, separator) :: Without(part, separator)
  {
    if s != "" {
      var rest := Split(s[1..], separator);
      SplitParts(s[1..], separator);
      assert rest[0] in rest;
      assert forall part <- rest[1..] :: part in rest;
    }
  }

  lemma {:induction false} JoinAppend(a: seq<string>, b: seq<string>, separator: string)
    requires a != [] && b != []
    ensures Join(a + b, separator) == Join(a, separator) + separator + Join(b, separator)
  {
    assert (a + b)[1..] == a[1..] + b;
    if |a| > 1 {
      JoinAppend(a[1..], b, separator);
    } else {
      assert a[1..] + b == b;
    }
  }

  /** Joining undoes splitting. */
  lemma {:induction false} JoinSplit(s: string, separator: char)
    ensures Join(Split(s, separator), [separator]) == s
  {
    if s != "" {
      var rest := Split(s[1..], separator);
      JoinSplit(s[1..], separator);
      if s[0] == separator {
        JoinAppend([""], rest, [separator]);
      } else if |rest| > 1 {
        JoinAppend([rest[0]], rest[1..], [separator]);
        JoinAppend([[s[0]] + rest[0]], rest[1..], [separator]);
        assert [rest[0]] + rest[1..] == rest;
      } else {
        assert Split(s, separator) == [[s[0]] + rest[0]];
      }
    }
  }

  /** A text goes on after p with a separator exactly when its parts go on after p's parts. */
  lemma SplitPrefix(p: string, separator: char, s: string)
    ensures p + [separator] <= s <==> Split(p, separator) < Split(s, separator)
  {
    var head, all := Split(p, separator), Split(s, separator);
    if p + [separator] <= s {
      var rest := s[|p| + 1..];
      assert s == p + [separator] + rest;
      SplitAt(p, separator, rest);
    }
    if head < all {
      assert all == head + all[|head|..];
      JoinAppend(head, all[|head|..], [separator]);
      JoinSplit(p, separator);
      JoinSplit(s, separator);
    }
  }

  // ----- numbers in decimal

  function Decimal(n: nat): (digits: string)
    ensures digits != ""
  {
    var digit := [(n % 10) as char + '0'];
    if n < 10 then digit else Decimal(n / 10) + digit
  }

  function FromDecimal(digits: string): int {
    if digits == "" then 0
    else FromDecimal(digits[..|digits| - 1]) * 10 + digits[|digits| - 1] as int - '0' as int
  }

  lemma {:induction false} DecimalReadsBack(n: nat)
    ensures FromDecimal(Decimal(n)) == n
    ensures forall i :: 0 <= i < |Decimal(n)| ==> '0' <= Decimal(n)[i] <= '9'
  {
    var digits := Decimal(n);
    if n < 10 {
      assert digits[..|digits| - 1] == "";
    } else {
      DecimalReadsBack(n / 10);
      assert digits[..|digits| - 1] == Decimal(n / 10);
    }
  }

  /** There are no leading zeros. */
  lemma {:induction false} DecimalStart(n: nat)
    ensures Decimal(n)[0] == '0' <==> n == 0
    ensures n < 10 <==> |Decimal(n)| == 1
  {
    if n >= 10 {
      DecimalStart(n / 10);
    }
  }
}
