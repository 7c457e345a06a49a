/**
 * The transactions of the dashboard page and the choice of the default
 * currency once they arrive.
 */
module Dashboard {
  import opened Sequences
  import opened Sorting

  datatype Kind = Income | Expense

  /** A transaction row as the page receives it. */
  datatype Transaction = Transaction(
    id: string,
    userId: string,
    category: string,
    title: string,
    amount: real,
    currency: string,
    timestamp: string,
    day: string,
    kind: Kind,
    createdAt: string,
    updatedAt: string)

  /** The sentinel value of both selectors that means "no filtering". */
  const All: string := "all"

  const ItemsPerPage: nat := 10

  /** The text the kind is compared against by the type filter. */
  function KindName(k: Kind): string {
    match k
    case Income => "income"
    case Expense => "expense"
  }

  /** `data.map(tx => tx.currency)`. */
  function Currencies(data: seq<Transaction>): (r: seq<string>)
    ensures |r| == |data|
    ensures forall i | 0 <= i < |data| :: r[i] == data[i].currency
  {
    seq(|data|, i requires 0 <= i < |data| => data[i].currency)
  }

  /** How many transactions are in `currency`. */
  function Count(data: seq<Transaction>, currency: string): nat {
    multiset(Currencies(data))[currency]
  }

  // ---------------------------------------------------------------------------
  // Property order of a plain object

  predicate IsDigit(c: char) {
    '0' <= c <= '9'
  }

  /** The value of a string of decimal digits. */
  function DecimalValue(s: string): nat
    requires forall i | 0 <= i < |s| :: IsDigit(s[i])
  {
    if s == [] then 0
    else
      assert IsDigit(s[|s| - 1]);
      DecimalValue(s[..|s| - 1]) * 10 + (s[|s| - 1] as int - '0' as int)
  }

  /**
   * An array index: the canonical decimal form of an integer below
   * 2^32 - 1 (no sign, no leading zero other than "0" itself).
   */
  predicate IsArrayIndex(key: string) {
    && |key| > 0
    && (forall i | 0 <= i < |key| :: IsDigit(key[i]))
    && (key[0] != '0' || |key| == 1)
    && DecimalValue(key) < 0xFFFF_FFFF
  }

  /** The numeric value of an array-index key (0 for other keys, which are never compared). */
  function IndexValue(key: string): nat {
    if IsArrayIndex(key) then DecimalValue(key) else 0
  }

  /** Ascending numeric order of array-index keys. */
  predicate IndexLe(a: string, b: string) {
    IndexValue(a) <= IndexValue(b)
  }

  predicate NotArrayIndex(key: string) {
    !IsArrayIndex(key)
  }

  lemma IndexLeIsTotalPreorder()
    ensures TotalPreorder(IndexLe)
  {
  }

  /**
   * The order in which `for...in` visits the own keys of a plain object whose
   * keys were created in the order `created`: first the array-index keys in
   * ascending numeric order, then the other keys in creation order
   * (OrdinaryOwnPropertyKeys, section 10.1.11.1 of ECMAScript 2024).
   */
  function EnumerationOrder(created: seq<string>): (r: seq<string>)
    ensures multiset(r) == multiset(created)
  {
    IndexLeIsTotalPreorder();
    var indices := Filter(created, IsArrayIndex);
    var others := Filter(created, NotArrayIndex);
    assert multiset(indices) + multiset(others) == multiset(created) by {
      forall k ensures (multiset(indices) + multiset(others))[k] == multiset(created)[k] {
      }
    }
    Sort(indices, IndexLe) + others
  }

  /** When no key looks like an array index, keys are visited in creation order. */
  lemma EnumerationOrderWithoutIndices(created: seq<string>)
    requires forall i | 0 <= i < |created| :: !IsArrayIndex(created[i])
    ensures EnumerationOrder(created) == created
  {
    FilterNone(created, IsArrayIndex);
    FilterAll(created, NotArrayIndex);
  }

  // ---------------------------------------------------------------------------
  // Default currency

  /**
   * `k` is the first position of `order` whose currency has the largest count:
   * the one the scan with a strict `>` ends on.
   */
  ghost predicate IsFirstMostFrequent(order: seq<string>, data: seq<Transaction>, k: int) {
    && 0 <= k < |order|
    && (forall i | 0 <= i < |order| :: Count(data, order[i]) <= Count(data, order[k]))
    && (forall i | 0 <= i < k :: Count(data, order[i]) < Count(data, order[k]))
  }

  /** At most one position is the first most frequent one. */
  lemma FirstMostFrequentUnique(order: seq<string>, data: seq<Transaction>, k1: int, k2: int)
    requires IsFirstMostFrequent(order, data, k1) && IsFirstMostFrequent(order, data, k2)
    ensures k1 == k2
  {
    assert Count(data, order[k1]) <= Count(data, order[k2]) <= Count(data, order[k1]);
  }

  /**
   * When no currency code looks like an array index, a tie goes to the
   * currency seen first: the winner first occurs no later than any
   * transaction whose currency has the same count.
   */
  lemma TieGoesToFirstSeen(data: seq<Transaction>, k: int, j: int)
    requires forall i | 0 <= i < |data| :: !IsArrayIndex(data[i].currency)
    requires IsFirstMostFrequent(EnumerationOrder(Distinct(Currencies(data))), data, k)
    requires 0 <= j < |data|
    requires Count(data, data[j].currency) == Count(data, EnumerationOrder(Distinct(Currencies(data)))[k])
    ensures EnumerationOrder(Distinct(Currencies(data)))[k] in Currencies(data)
    ensures FirstIndex(Currencies(data), EnumerationOrder(Distinct(Currencies(data)))[k]) <= j
  {
    var currencies := Currencies(data);
    var d := Distinct(currencies);
    forall i | 0 <= i < |d| ensures !IsArrayIndex(d[i]) {
      assert d[i] in d;
      var m :| 0 <= m < |currencies| && currencies[m] == d[i];
    }
    EnumerationOrderWithoutIndices(d);
    var c := data[j].currency;
    assert currencies[j] == c;
    assert c in d;
    var m :| 0 <= m < |d| && d[m] == c;
    assert d[k] in d;
    if m > k {
      DistinctFirstOccurrence(currencies, k, m);
    }
  }

  /** `counts` has a key for exactly the currencies of `s`, holding how often each occurs. */
  ghost predicate Tally(counts: map<string, nat>, s: seq<string>) {
    && (forall c :: c in counts <==> c in s)
    && (forall c | c in counts :: counts[c] == multiset(s)[c])
  }

  /** One step of the `forEach`: `(counts[c] || 0) + 1` keeps the tally. */
  lemma TallyStep(counts: map<string, nat>, s: seq<string>, c: string)
    requires Tally(counts, s)
    ensures Tally(counts[c := (if c in counts then counts[c] else 0) + 1], s + [c])
  {
    var counts' := counts[c := (if c in counts then counts[c] else 0) + 1];
    forall x ensures x in counts' <==> x in s + [c] {
    }
    forall x | x in counts' ensures counts'[x] == multiset(s + [c])[x] {
    }
  }

  /**
   * The `forEach` that fills `currencyCounts` from the currencies of the
   * transactions: the object's own keys in creation order (first occurrence)
   * and the count stored under each.
   */
  method CountCurrencies(currencies: seq<string>) returns (keys: seq<string>, counts: map<string, nat>)
    ensures keys == Distinct(currencies)
    ensures forall c :: c in counts <==> c in currencies
    ensures forall c | c in counts :: counts[c] == multiset(currencies)[c]
  {
    keys, counts := [], map[];
    var i := 0;
    while i < |currencies|
      invariant 0 <= i <= |currencies|
      invariant keys == Distinct(currencies[..i])
      invariant Tally(counts, currencies[..i])
    {
      var currency := currencies[i];
      assert currencies[..i + 1] == currencies[..i] + [currency];
      DistinctSnoc(currencies[..i], currency);
      TallyStep(counts, currencies[..i], currency);
      if currency !in counts {
        keys := keys + [currency];
      }
      counts := counts[currency := (if currency in counts then counts[currency] else 0) + 1];
      i := i + 1;
    }
    assert currencies[..i] == currencies;
  }

  /**
   * The `for...in` scan over `currencyCounts`: keeps the first currency
   * whose count is strictly greater than every count seen before it; the
   * empty string when there are no keys.
   */
  method MostFrequentCurrency(order: seq<string>, counts: map<string, nat>, data: seq<Transaction>)
    returns (mostFrequentCurrency: string)
    requires forall i | 0 <= i < |order| :: order[i] in counts && counts[order[i]] == Count(data, order[i])
    requires forall i | 0 <= i < |order| :: Count(data, order[i]) > 0
    ensures order == [] ==> mostFrequentCurrency == ""
    ensures order != [] ==> exists k :: IsFirstMostFrequent(order, data, k) && mostFrequentCurrency == order[k]
  {
    mostFrequentCurrency := "";
    var maxCount := 0;
    ghost var best := 0;
    var j := 0;
    while j < |order|
      invariant 0 <= j <= |order|
      invariant j == 0 ==> maxCount == 0 && mostFrequentCurrency == ""
      invariant j > 0 ==>
        && IsFirstMostFrequent(order[..j], data, best)
        && mostFrequentCurrency == order[best]
        && maxCount == Count(data, order[best])
    {
      var currency := order[j];
      if counts[currency] > maxCount {
        maxCount := counts[currency];
        mostFrequentCurrency := currency;
        best := j;
      }
      j := j + 1;
    }
    assert order[..j] == order;
  }

  /**
   * The default currency chosen when the transactions arrive: `"all"` for no
   * data, the only currency when there is one, and otherwise the first
   * currency, in the object's key order, whose count is the largest (falling
   * back to the first currency seen when that winner is the empty string).
   */
  method SelectDefaultCurrency(data: seq<Transaction>) returns (selected: string)
    ensures data == [] ==> selected == All
    ensures data != [] ==> selected in Currencies(data)
    ensures |Distinct(Currencies(data))| == 1 ==> selected == data[0].currency
    ensures |Distinct(Currencies(data))| > 1 ==>
      var currencies := Distinct(Currencies(data));
      var order := EnumerationOrder(currencies);
      exists k :: IsFirstMostFrequent(order, data, k) &&
        selected == if order[k] == "" then currencies[0] else order[k]
  {
    if |data| == 0 {
      return All;
    }
    var currencies := Distinct(Currencies(data));
    if |currencies| == 1 {
      assert data[0].currency in currencies;
      return currencies[0];
    }
    var keys, counts := CountCurrencies(Currencies(data));
    var order := EnumerationOrder(keys);
    forall i | 0 <= i < |order|
      ensures order[i] in counts && counts[order[i]] == Count(data, order[i]) && Count(data, order[i]) > 0
    {
      assert order[i] in multiset(keys);
      assert order[i] in keys;
    }
    var mostFrequentCurrency := MostFrequentCurrency(order, counts, data);
    ghost var k :| IsFirstMostFrequent(order, data, k) && mostFrequentCurrency == order[k];
    assert order[k] in multiset(keys);
    assert order[k] in keys;
    assert currencies[0] in currencies;
    selected := if mostFrequentCurrency != "" then mostFrequentCurrency else currencies[0];
  }

  /**
   * The winner of the scan has the largest count among all currencies of the
   * data, not only among those visited before it.
   */
  lemma FirstMostFrequentIsMaximal(data: seq<Transaction>, k: int)
    requires IsFirstMostFrequent(EnumerationOrder(Distinct(Currencies(data))), data, k)
    ensures forall i | 0 <= i < |data| ::
      Count(data, data[i].currency) <= Count(data, EnumerationOrder(Distinct(Currencies(data)))[k])
  {
    var order := EnumerationOrder(Distinct(Currencies(data)));
    forall i | 0 <= i < |data|
      ensures Count(data, data[i].currency) <= Count(data, order[k])
    {
      var c := data[i].currency;
      var currencies := Distinct(Currencies(data));
      assert Currencies(data)[i] == c;
      assert c in currencies;
      assert c in multiset(currencies);
      assert c in multiset(order);
      var j :| 0 <= j < |order| && order[j] == c;
    }
  }
}
