/**
 * The request headers as the authentication gate sees them: an ordered list
 * of (name, value) pairs folded into a dictionary keyed by the lower-cased
 * name, where a later pair overwrites an earlier one with the same key.
 */
module Headers {
  import opened Wrappers
  import opened Text

  /** One raw header, name and value already decoded to text. */
  type Header = (string, string)

  /** The dictionary comprehension over the header list: each name is lowered
      and, entry by entry, inserted with its value, so the last pair wins. */
  function HeaderDict(headers: seq<Header>): map<string, string> {
    if headers == [] then map[]
    else
      var last := headers[|headers| - 1];
      HeaderDict(headers[..|headers| - 1])[Lower(last.0) := last.1]
  }

  /** The dictionary's keys are exactly the lowered header names. */
  lemma {:induction false} HeaderDictKeys(headers: seq<Header>)
    ensures HeaderDict(headers).Keys == set k | 0 <= k < |headers| :: Lower(headers[k].0)
  {
    if headers != [] {
      var n := |headers| - 1;
      HeaderDictKeys(headers[..n]);
      assert forall k :: 0 <= k < n ==> headers[..n][k] == headers[k];
    }
  }

  /** `dict.get(key)` on that dictionary. */
  function Lookup(headers: seq<Header>, key: string): Option<string> {
    var d := HeaderDict(headers);
    if key in d then Some(d[key]) else None
  }

  /** Position `i` holds the last header whose lowered name is `key`. */
  ghost predicate IsLastNamed(headers: seq<Header>, i: int, key: string) {
    && 0 <= i < |headers|
    && Lower(headers[i].0) == key
    && forall j :: i < j < |headers| ==> Lower(headers[j].0) != key
  }

  /** A key is missing exactly when no header name lowers to it. */
  lemma LookupAbsent(headers: seq<Header>, key: string)
    ensures Lookup(headers, key) == None <==>
      forall i :: 0 <= i < |headers| ==> Lower(headers[i].0) != key
  {
    HeaderDictKeys(headers);
  }

  /** The value found is the value of the last header whose name lowers to
      the key. */
  lemma {:induction false} LookupLastWins(headers: seq<Header>, i: int, key: string)
    requires IsLastNamed(headers, i, key)
    ensures Lookup(headers, key) == Some(headers[i].1)
  {
    var n := |headers| - 1;
    if i < n {
      var init := headers[..n];
      assert IsLastNamed(init, i, key);
      LookupLastWins(init, i, key);
    }
  }

  /** Whatever Lookup finds sits at the last position whose name lowers to
      the key. */
  lemma {:induction false} LookupFound(headers: seq<Header>, key: string)
    requires Lookup(headers, key).Some?
    ensures exists i :: IsLastNamed(headers, i, key) && Lookup(headers, key).value == headers[i].1
  {
    var n := |headers| - 1;
    if Lower(headers[n].0) == key {
      assert IsLastNamed(headers, n, key);
    } else {
      var init := headers[..n];
      LookupFound(init, key);
      var i :| IsLastNamed(init, i, key) && Lookup(init, key).value == init[i].1;
      assert IsLastNamed(headers, i, key);
    }
  }

  /** Only the lowered names matter: two header lists that agree on them and
      on the values give the same answer for every key. */
  lemma {:induction false} LookupIgnoresNameCase(h1: seq<Header>, h2: seq<Header>, key: string)
    requires |h1| == |h2|
    requires forall i :: 0 <= i < |h1| ==> Lower(h1[i].0) == Lower(h2[i].0) && h1[i].1 == h2[i].1
    ensures Lookup(h1, key) == Lookup(h2, key)
  {
    if h1 != [] {
      var n := |h1| - 1;
      LookupIgnoresNameCase(h1[..n], h2[..n], key);
    }
  }
}
