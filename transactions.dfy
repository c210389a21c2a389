/**
  The transaction list shared by the screens: records are created from the
  values the form hands over and prepended, and deleted by id with a filter.
  The list itself is the state of `TransactionsStore`; building a record and
  filtering the list are pure functions that its two methods use.
 */
module Transactions {
  import opened AmountText

  datatype Kind = Ingreso | Gasto

  /** A point in time; only carried along, never inspected. */
  datatype Date = Date(millis: int)

  datatype Transaction = Transaction(
    id: string,
    kind: Kind,
    title: string,
    amount: Number,
    date: Date,
    bgColor: string)

  const IncomeTint: string := "#e5ffe5ff"
  const ExpenseTint: string := "#ffe7e7ff"

  function Tint(kind: Kind): string
  {
    if kind == Ingreso then IncomeTint else ExpenseTint
  }

  /** Multiplication by -1; NaN stays NaN. */
  function Negate(x: Number): (r: Number)
    ensures r.NaN? <==> x.NaN?
  {
    match x
    case NaN => NaN
    case Finite(u, s) => Finite(-u, s)
  }

  /** parseFloat(amount) times -1 for an expense and times 1 for an income. */
  function SignedAmount(amount: string, kind: Kind): (r: Number)
  {
    if kind == Gasto then Negate(ParseFloat(amount)) else ParseFloat(amount)
  }

  /** The record addTransaction builds; `id` is the clock reading it is keyed by. */
  function NewTransaction(id: string, title: string, amount: string, kind: Kind, date: Date): (t: Transaction)
    ensures t.id == id && t.title == title && t.kind == kind && t.date == date
  {
    Transaction(id, kind, title, SignedAmount(amount, kind), date, Tint(kind))
  }

  /**
    The stored amount is parseFloat's reading of the text with the sign of the
    kind: never positive for an expense, never negative for an income, and
    its magnitude is what was typed.
   */
  lemma AmountSignFollowsKind(id: string, title: string, amount: string, kind: Kind, date: Date)
    ensures var t := NewTransaction(id, title, amount, kind, date);
      && (t.amount.NaN? <==> ParseFloat(amount).NaN?)
      && (t.amount.Finite? ==>
            && t.amount.scale == ParseFloat(amount).scale
            && (kind == Gasto ==> t.amount.units <= 0 && -t.amount.units == ParseFloat(amount).units)
            && (kind == Ingreso ==> t.amount.units >= 0 && t.amount.units == ParseFloat(amount).units))
  {
  }

  /** The background colour depends on the kind and on nothing else. */
  lemma TintFollowsKind(id1: string, title1: string, amount1: string, k1: Kind, date1: Date,
                        id2: string, title2: string, amount2: string, k2: Kind, date2: Date)
    ensures var t1, t2 := NewTransaction(id1, title1, amount1, k1, date1), NewTransaction(id2, title2, amount2, k2, date2);
      && (t1.bgColor == t2.bgColor <==> k1 == k2)
      && t1.bgColor == (if k1 == Ingreso then "#e5ffe5ff" else "#ffe7e7ff")
  {
    assert IncomeTint != ExpenseTint by {
      assert IncomeTint[1] != ExpenseTint[1];
    }
  }

  /** The list without the records whose id is `id`, in the original order. */
  function WithoutId(s: seq<Transaction>, id: string): (r: seq<Transaction>)
    ensures |r| <= |s|
    ensures forall t :: t in r ==> t in s && t.id != id
    ensures forall t :: t in s && t.id != id ==> t in r
  {
    if s == [] then []
    else if s[0].id != id then [s[0]] + WithoutId(s[1..], id)
    else WithoutId(s[1..], id)
  }

  /** Filtering distributes over concatenation, so relative order is kept. */
  lemma {:induction false} WithoutIdAppend(a: seq<Transaction>, b: seq<Transaction>, id: string)
    ensures WithoutId(a + b, id) == WithoutId(a, id) + WithoutId(b, id)
  {
    if a == [] {
      assert a + b == b;
    } else {
      assert (a + b)[1..] == a[1..] + b;
      WithoutIdAppend(a[1..], b, id);
    }
  }

  /** Number of records carrying `id`. */
  function CountId(s: seq<Transaction>, id: string): (n: nat)
    ensures n <= |s|
  {
    if s == [] then 0 else (if s[0].id == id then 1 else 0) + CountId(s[1..], id)
  }

  /** Every record that carries the id is removed, and only those. */
  lemma {:induction false} WithoutIdRemovesAll(s: seq<Transaction>, id: string)
    ensures |WithoutId(s, id)| == |s| - CountId(s, id)
    ensures CountId(WithoutId(s, id), id) == 0
  {
    if s != [] {
      WithoutIdRemovesAll(s[1..], id);
    }
  }

  lemma CountIdZero(s: seq<Transaction>, id: string)
    ensures CountId(s, id) == 0 <==> forall t :: t in s ==> t.id != id
  {
    if s != [] {
      CountIdZero(s[1..], id);
      assert forall t :: t in s <==> t == s[0] || t in s[1..];
    }
  }

  /** Deleting an id no record carries leaves the list as it was. */
  lemma {:induction false} WithoutAbsentId(s: seq<Transaction>, id: string)
    requires forall t :: t in s ==> t.id != id
    ensures WithoutId(s, id) == s
  {
    if s != [] {
      var rest := s[1..];
      assert s[0] in s;
      assert forall t :: t in rest ==> t in s;
      WithoutAbsentId(rest, id);
      assert WithoutId(s, id) == [s[0]] + WithoutId(rest, id);
      assert [s[0]] + rest == s;
    }
  }

  /** Deleting the same id twice is deleting it once. */
  lemma WithoutIdIdempotent(s: seq<Transaction>, id: string)
    ensures WithoutId(WithoutId(s, id), id) == WithoutId(s, id)
  {
    WithoutAbsentId(WithoutId(s, id), id);
  }

  /** Deletions of two ids can be done in either order. */
  lemma {:induction false} WithoutIdCommutes(s: seq<Transaction>, a: string, b: string)
    ensures WithoutId(WithoutId(s, a), b) == WithoutId(WithoutId(s, b), a)
  {
    if s != [] {
      WithoutIdCommutes(s[1..], a, b);
    }
  }

  /** No two records share an id. */
  predicate UniqueIds(s: seq<Transaction>)
  {
    forall i, j :: 0 <= i < j < |s| ==> s[i].id != s[j].id
  }

  /** A record in front of a list with unique ids, none equal to its own, gives unique ids. */
  lemma UniqueCons(h: Transaction, r: seq<Transaction>)
    requires UniqueIds(r) && forall t :: t in r ==> t.id != h.id
    ensures UniqueIds([h] + r)
  {
    var s := [h] + r;
    forall i, j | 0 <= i < j < |s|
      ensures s[i].id != s[j].id
    {
      assert s[j] == r[j - 1];
      if i > 0 {
        assert s[i] == r[i - 1];
      } else {
        assert r[j - 1] in r;
      }
    }
  }

  /** The tail of a list with unique ids has unique ids, none equal to the head's. */
  lemma UniqueTail(s: seq<Transaction>)
    requires UniqueIds(s) && s != []
    ensures UniqueIds(s[1..])
    ensures forall t :: t in s[1..] ==> t.id != s[0].id
  {
    var rest := s[1..];
    forall i, j | 0 <= i < j < |rest|
      ensures rest[i].id != rest[j].id
    {
      assert rest[i] == s[i + 1] && rest[j] == s[j + 1];
    }
    forall t | t in rest
      ensures t.id != s[0].id
    {
      var k :| 0 <= k < |rest| && rest[k] == t;
      assert s[k + 1] == t;
    }
  }

  /** Prepending a record whose id is new keeps the ids unique. */
  lemma AddKeepsIdsUnique(s: seq<Transaction>, id: string, title: string, amount: string, kind: Kind, date: Date)
    requires UniqueIds(s) && forall t :: t in s ==> t.id != id
    ensures UniqueIds([NewTransaction(id, title, amount, kind, date)] + s)
  {
    UniqueCons(NewTransaction(id, title, amount, kind, date), s);
  }

  /** Deleting keeps the ids unique. */
  lemma {:induction false} DeleteKeepsIdsUnique(s: seq<Transaction>, id: string)
    requires UniqueIds(s)
    ensures UniqueIds(WithoutId(s, id))
  {
    if s != [] {
      var rest := s[1..];
      UniqueTail(s);
      DeleteKeepsIdsUnique(rest, id);
      if s[0].id != id {
        var r := WithoutId(rest, id);
        assert forall t :: t in r ==> t in rest;
        UniqueCons(s[0], r);
      }
    }
  }

  /** With unique ids, deleting an id that is present removes exactly one record. */
  lemma UniqueDeleteRemovesOne(s: seq<Transaction>, id: string)
    requires UniqueIds(s)
    requires exists t :: t in s && t.id == id
    ensures |WithoutId(s, id)| == |s| - 1
  {
    WithoutIdRemovesAll(s, id);
    UniqueCountAtMostOne(s, id);
    CountIdZero(s, id);
  }

  lemma {:induction false} UniqueCountAtMostOne(s: seq<Transaction>, id: string)
    requires UniqueIds(s)
    ensures CountId(s, id) <= 1
  {
    if s != [] {
      UniqueTail(s);
      UniqueCountAtMostOne(s[1..], id);
      if s[0].id == id {
        CountIdZero(s[1..], id);
      }
    }
  }

  /** Adding a record with a fresh id and then deleting that id restores the list. */
  lemma AddThenDelete(s: seq<Transaction>, id: string, title: string, amount: string, kind: Kind, date: Date)
    requires forall t :: t in s ==> t.id != id
    ensures WithoutId([NewTransaction(id, title, amount, kind, date)] + s, id) == s
  {
    var s' := [NewTransaction(id, title, amount, kind, date)] + s;
    assert s'[1..] == s;
    WithoutAbsentId(s, id);
  }

  /** The provider's state: the list of transactions, newest first. */
  class TransactionsStore {
    var transactions: seq<Transaction>

    constructor()
      ensures transactions == []
    {
      transactions := [];
    }

    /** Records the new transaction in front of the existing ones. */
    method AddTransaction(id: string, title: string, amount: string, kind: Kind, date: Date)
      modifies this
      ensures transactions == [NewTransaction(id, title, amount, kind, date)] + old(transactions)
    {
      transactions := [NewTransaction(id, title, amount, kind, date)] + transactions;
    }

    /** Drops every transaction whose id is `id`. */
    method DeleteTransaction(id: string)
      modifies this
      ensures transactions == WithoutId(old(transactions), id)
    {
      transactions := WithoutId(transactions, id);
    }
  }
}
