/**
 * Database tables as maps from generated identifiers to rows, and the two
 * table-level notions every repository shares: which key `save` writes, and
 * the rows a query returns, in ascending identifier order.
 */
module Tables {
  import opened Wrappers

  /** A generated primary key (a Java `Long` that is never negative). */
  type Id = nat

  /**
   * The key `save` writes: an entity whose identifier is already in the table
   * is merged into that row; one without an identifier, or with one the table
   * does not hold, is inserted under the next generated key.
   */
  function SaveKey<T>(id: Option<Id>, rows: map<Id, T>, nextId: Id): (k: Id)
    requires nextId !in rows
    ensures k in rows <==> id.Some? && id.value in rows
    ensures k !in rows ==> k == nextId
    ensures k in rows ==> id == Some(k)
  {
    if id.Some? && id.value in rows then id.value else nextId
  }

  /** The keys below `n` whose rows satisfy `p`, in ascending order. */
  function KeysWhere<T>(rows: map<Id, T>, n: nat, p: T -> bool): (ks: seq<Id>)
    ensures forall k :: k in ks <==> k < n && k in rows && p(rows[k])
    ensures forall i, j :: 0 <= i < j < |ks| ==> ks[i] < ks[j]
    ensures forall i :: 0 <= i < |ks| ==> ks[i] < n
  {
    if n == 0 then []
    else KeysWhere(rows, n - 1, p) + (if n - 1 in rows && p(rows[n - 1]) then [n - 1] else [])
  }

  /**
   * The rows below `n` that satisfy `p`, in ascending key order: what a
   * derived query (`findAll`, `findByColor`, ...) returns. Each selected key
   * contributes its row exactly once.
   */
  function Select<T(==)>(rows: map<Id, T>, n: nat, p: T -> bool): (r: seq<T>)
    ensures |r| == |KeysWhere(rows, n, p)|
    ensures forall i :: 0 <= i < |r| ==> KeysWhere(rows, n, p)[i] in rows && r[i] == rows[KeysWhere(rows, n, p)[i]]
    ensures forall i :: 0 <= i < |r| ==> r[i] in rows.Values && p(r[i])
    ensures forall k :: k < n && k in rows && p(rows[k]) ==> rows[k] in r
  {
    if n == 0 then []
    else
      var prefix := Select(rows, n - 1, p);
      var r := prefix + (if n - 1 in rows && p(rows[n - 1]) then [rows[n - 1]] else []);
      assert forall i :: 0 <= i < |prefix| ==> r[i] == prefix[i];
      r
  }

  /**
   * When every key is below `n` and each row carries its own key, the query
   * returns exactly the stored rows satisfying `p`, each of them once.
   */
  lemma SelectMembers<T>(rows: map<Id, T>, n: nat, p: T -> bool, key: T -> Option<Id>)
    requires forall k :: k in rows ==> k < n && key(rows[k]) == Some(k)
    ensures forall x :: x in Select(rows, n, p) <==> x in rows.Values && p(x)
    ensures forall i, j :: 0 <= i < j < |Select(rows, n, p)| ==> Select(rows, n, p)[i] != Select(rows, n, p)[j]
  {
    var ks := KeysWhere(rows, n, p);
    var r := Select(rows, n, p);
    forall i, j | 0 <= i < j < |r| ensures r[i] != r[j] {
      assert key(r[i]) == Some(ks[i]) && key(r[j]) == Some(ks[j]) && ks[i] < ks[j];
    }
  }

  /**
   * How many keys a single-result query finds: none exactly when no row
   * below `n` matches, one exactly when a single row matches, and two or
   * more exactly when two different rows match.
   */
  lemma KeysWhereCount<T>(rows: map<Id, T>, n: nat, p: T -> bool)
    ensures |KeysWhere(rows, n, p)| == 0 <==> forall k :: k in rows && k < n ==> !p(rows[k])
    ensures |KeysWhere(rows, n, p)| == 1 ==>
              var k := KeysWhere(rows, n, p)[0];
              k in rows && k < n && p(rows[k]) && forall j :: j in rows && j < n && p(rows[j]) ==> j == k
    ensures |KeysWhere(rows, n, p)| >= 2 <==>
              exists j, k :: j in rows && k in rows && j < k < n && p(rows[j]) && p(rows[k])
  {
    var ks := KeysWhere(rows, n, p);
    if |ks| >= 1 {
      assert ks[0] in ks;
    }
    if |ks| >= 2 {
      assert ks[0] < ks[1] && ks[1] in ks;
    }
    if |ks| == 1 {
      forall j | j in rows && j < n && p(rows[j]) ensures j == ks[0] {
        assert j in ks;
      }
    }
    forall j, k | j in rows && k in rows && j < k < n && p(rows[j]) && p(rows[k]) ensures |ks| >= 2 {
      assert j in ks && k in ks;
    }
  }

  /** Two filters that agree on every stored row select the same rows in the same order. */
  lemma {:induction false} SelectAgrees<T>(rows: map<Id, T>, n: nat, p: T -> bool, q: T -> bool)
    requires forall k :: k in rows ==> p(rows[k]) == q(rows[k])
    ensures Select(rows, n, p) == Select(rows, n, q)
  {
    if n > 0 {
      SelectAgrees(rows, n - 1, p, q);
    }
  }
}
