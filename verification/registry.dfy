/** The name-keyed singly linked lists every manager of the stack keeps:
    input devices, display devices, font engines and pages. Nodes are
    inserted at the head and looked up from the head by exact name, so the
    list is modelled as a sequence whose element 0 is the head. */
module Registry {
  import opened Common

  /** A list node: the name a node is looked up by, and the rest of the
      node (function pointers and data), kept abstract as `item`. */
  datatype Named<T> = Named(name: string, item: T)

  /** Head insertion: the new node becomes the head and its `next` is the
      previous head. */
  function Register<T>(list: seq<Named<T>>, node: Named<T>): (r: seq<Named<T>>)
    ensures |r| == |list| + 1
    ensures r[0] == node
    ensures r[1..] == list
  {
    [node] + list
  }

  /** Position of the first element, in order, whose key equals `name`. */
  function FindFirst<T>(xs: seq<T>, key: T -> string, name: string): (r: Option<nat>)
    ensures r.Some? ==> r.value < |xs| && key(xs[r.value]) == name
    ensures r.Some? ==> forall j :: 0 <= j < r.value ==> key(xs[j]) != name
    ensures r.None? <==> forall j :: 0 <= j < |xs| ==> key(xs[j]) != name
  {
    if |xs| == 0 then None
    else if key(xs[0]) == name then Some(0)
    else match FindFirst(xs[1..], key, name)
      case None => None
      case Some(k) => Some(k + 1)
  }

  function NameOf<T>(n: Named<T>): string {
    n.name
  }

  /** Lookup by name: walks from the head and returns the first node whose
      name matches, or NULL (None) when no node matches. */
  function Lookup<T>(list: seq<Named<T>>, name: string): (r: Option<Named<T>>)
    ensures r.Some? ==> r.value.name == name
    ensures r.Some? ==> exists i :: 0 <= i < |list| && list[i] == r.value
                          && forall j :: 0 <= j < i ==> list[j].name != name
    ensures r.None? <==> forall j :: 0 <= j < |list| ==> list[j].name != name
  {
    match FindFirst(list, NameOf, name)
    case None => None
    case Some(i) => Some(list[i])
  }

  /** With duplicate names the most recently registered node wins: head
      insertion followed by a first-match walk finds the new node. */
  lemma LastRegisteredWins<T>(list: seq<Named<T>>, node: Named<T>)
    ensures Lookup(Register(list, node), node.name) == Some(node)
  {
  }

  /** Registering a node leaves the lookup of every other name as it was. */
  lemma RegisterKeepsOtherLookups<T>(list: seq<Named<T>>, node: Named<T>, name: string)
    requires name != node.name
    ensures Lookup(Register(list, node), name) == Lookup(list, name)
  {
    var r := Register(list, node);
    assert r[1..] == list;
    match FindFirst(list, NameOf, name)
    case None =>
      assert forall j :: 0 <= j < |r| ==> r[j].name != name by {
        forall j | 0 <= j < |r| ensures r[j].name != name {
          if j > 0 { assert r[j] == list[j - 1]; }
        }
      }
    case Some(i) =>
      assert r[i + 1] == list[i];
  }
}
