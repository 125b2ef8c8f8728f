/** JavaScript values the reconciler passes around: optional attribute objects,
    component state objects, and the exceptions a reconciliation pass can raise. */
module Js {

  datatype Option<+T> = None | Some(value: T)

  /** The exceptions that escape a pass. None of them is caught by the core. */
  datatype Error =
    | TypeError              // a property read on `undefined`
    | HierarchyRequestError  // the host refuses `appendChild` on a text node
    | RenderError            // a component's `render` (or its class) throws

  datatype Result<+T> = Ok(value: T) | Err(error: Error)

  /** An attribute object, or `undefined`/`null` (None). Values are what
      `setAttribute` stores: strings. */
  type Attrs = Option<map<string, string>>

  /** The entries a `for (key in attrs)` loop visits: none for `undefined`/`null`. */
  function AttrMap(a: Attrs): (m: map<string, string>)
    ensures a.Some? ==> m == a.value
    ensures a.None? ==> m == map[]
  {
    match a
    case None => map[]
    case Some(m) => m
  }

  /** The values a component state holds in this program: strings, numbers and
      lists of strings. */
  datatype JsValue = JStr(s: string) | JInt(i: int) | JList(items: seq<string>)

  /** A component's `state` object, as a key/value map. */
  type State = map<string, JsValue>

  /** A non-empty sequence is its prefix with its last element put back. */
  lemma PrefixAndLast<T>(s: seq<T>)
    requires s != []
    ensures s[..|s| - 1] + [s[|s| - 1]] == s
  {
  }

  /** A prefix one element longer is the shorter prefix with that element. */
  lemma PrefixSnoc<T>(s: seq<T>, i: nat)
    requires i < |s|
    ensures s[..i + 1] == s[..i] + [s[i]]
  {
  }

  /** Merging in a one-entry map is updating that entry. */
  lemma MergeSingleton<K, V>(m: map<K, V>, k: K, v: V)
    ensures m + map[k := v] == m[k := v]
  {
  }
}
