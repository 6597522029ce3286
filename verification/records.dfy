/** Values that cross between the pages and the server: JSON objects of string
    values (kept in insertion order, as JavaScript objects and Python dicts
    keep them), the replies the routes send, and what a page's `fetch` yields. */
module Records {

  datatype Option<T> = None | Some(value: T)

  /** One key/value pair of a JSON object. */
  datatype Entry = Entry(key: string, value: string)

  /** An object has each key once. */
  predicate DistinctKeys(obj: seq<Entry>) {
    forall i, j :: 0 <= i < j < |obj| ==> obj[i].key != obj[j].key
  }

  function Keys(obj: seq<Entry>): (ks: seq<string>)
    ensures |ks| == |obj|
  {
    seq(|obj|, i requires 0 <= i < |obj| => obj[i].key)
  }

  /** `obj[key]`, or nothing when the key is absent. */
  function Lookup(obj: seq<Entry>, key: string): Option<string> {
    if obj == [] then None
    else if obj[0].key == key then Some(obj[0].value)
    else Lookup(obj[1..], key)
  }

  /** `{ ...obj, [key]: value }`: an existing key keeps its position and takes
      the new value; a new key goes last. */
  function Put(obj: seq<Entry>, key: string, value: string): seq<Entry> {
    if obj == [] then [Entry(key, value)]
    else if obj[0].key == key then [Entry(key, value)] + obj[1..]
    else [obj[0]] + Put(obj[1..], key, value)
  }

  /** A route's JSON reply: success with its payload, or `success: false` with
      an HTTP status and a message. */
  datatype Reply<T> = Ok(value: T) | Fail(status: int, message: string)

  /** What a page's `fetch` gives: the decoded reply, or a thrown error. */
  datatype Outcome<T> = Received(reply: Reply<T>) | Threw

  // ---------------------------------------------------------------------------
  // Lemmas

  /** A key is found exactly when it is one of the object's keys. */
  lemma {:induction false} LookupFindsKeys(obj: seq<Entry>, key: string)
    ensures Lookup(obj, key).Some? <==> key in Keys(obj)
  {
    if obj != [] {
      LookupFindsKeys(obj[1..], key);
      assert Keys(obj) == [obj[0].key] + Keys(obj[1..]);
    }
  }

  /** In an object with distinct keys, the entry at position i is what a
      lookup of its key finds. */
  lemma {:induction false} LookupAt(obj: seq<Entry>, i: nat)
    requires DistinctKeys(obj) && i < |obj|
    ensures Lookup(obj, obj[i].key) == Some(obj[i].value)
  {
    if i > 0 {
      LookupAt(obj[1..], i - 1);
    }
  }

  /** After `Put`, the key holds the new value and every other key holds what
      it held before. */
  lemma {:induction false} PutLookup(obj: seq<Entry>, key: string, value: string, other: string)
    ensures Lookup(Put(obj, key, value), key) == Some(value)
    ensures other != key ==> Lookup(Put(obj, key, value), other) == Lookup(obj, other)
  {
    if obj != [] && obj[0].key != key {
      PutLookup(obj[1..], key, value, other);
    }
  }

  /** `Put` keeps keys distinct and keeps their order: the keys are unchanged
      when the key was present, and the key is appended otherwise. */
  lemma {:induction false} PutKeys(obj: seq<Entry>, key: string, value: string)
    requires DistinctKeys(obj)
    ensures DistinctKeys(Put(obj, key, value))
    ensures Keys(Put(obj, key, value)) == if key in Keys(obj) then Keys(obj) else Keys(obj) + [key]
  {
    if obj != [] {
      assert Keys(obj) == [obj[0].key] + Keys(obj[1..]);
      if obj[0].key != key {
        PutKeys(obj[1..], key, value);
        var rest := Put(obj[1..], key, value);
        assert Keys([obj[0]] + rest) == [obj[0].key] + Keys(rest);
        assert obj[0].key !in Keys(obj[1..]);
        assert obj[0].key !in Keys(rest);
        forall j | 0 <= j < |rest| ensures rest[j].key != obj[0].key {
          assert rest[j].key == Keys(rest)[j];
        }
      } else {
        assert Keys([Entry(key, value)] + obj[1..]) == [key] + Keys(obj[1..]);
      }
    }
  }
}
