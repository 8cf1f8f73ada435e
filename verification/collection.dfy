/**
  The collection tree and the recursive request lookup of postmanHelper.go.

  An item of a parsed collection either has a non-nil list of child items
  (a folder) or it has none (a request leaf). Only leaves are matched, by exact
  name, in pre-order with children in stored order.
*/
module Collection {
  import opened Wrappers

  /** One declared header of a request template. */
  datatype Header = Header(key: string, value: string)

  /** The raw body template of a request. */
  datatype Body = Body(raw: string)

  /** The URL template of a request; only its raw text is used. */
  datatype URL = URL(raw: string)

  /** A request template as the collection parser produces it. */
  datatype Request = Request(httpMethod: string, url: URL, header: seq<Header>, body: Option<Body>)

  /** A node of the collection: a folder (its `Items` are non-nil, possibly empty) or a leaf. */
  datatype Item =
    | Folder(name: string, items: seq<Item>)
    | Leaf(name: string, request: Request)

  /** The error returned when no leaf carries the requested name. */
  datatype LookupError = NotFound(name: string)

  /**
    Walks `items` in stored order: a folder is searched recursively and, if that
    fails, the walk continues with its next sibling; a leaf is returned when its
    name equals `name`.
  */
  function FindRequestByName(items: seq<Item>, name: string): (r: Result<Item, LookupError>)
    ensures r.Success? ==> r.value.Leaf? && r.value.name == name
    ensures r.Failure? ==> r.error == NotFound(name)
    decreases items
  {
    if |items| == 0 then Failure(NotFound(name))
    else
      match items[0]
      case Folder(_, children) =>
        var found := FindRequestByName(children, name);
        if found.Success? then found else FindRequestByName(items[1..], name)
      case Leaf(leafName, _) =>
        if leafName == name then Success(items[0]) else FindRequestByName(items[1..], name)
  }

  /** The leaves of a forest in pre-order, children in stored order. */
  function Leaves(items: seq<Item>): (r: seq<Item>)
    ensures forall i :: 0 <= i < |r| ==> r[i].Leaf?
    decreases items
  {
    if |items| == 0 then []
    else
      (match items[0]
       case Folder(_, children) => Leaves(children)
       case Leaf(_, _) => [items[0]])
      + Leaves(items[1..])
  }

  /** The set of names carried by the leaves of a forest. */
  function LeafNames(items: seq<Item>): set<string>
  {
    set leaf | leaf in Leaves(items) :: leaf.name
  }

  /** The position of the first item of `leaves` named `name`, if any. */
  function FirstNamed(leaves: seq<Item>, name: string): (r: Option<nat>)
    ensures r.Some? ==> r.value < |leaves| && leaves[r.value].name == name
    ensures r.Some? ==> forall j :: 0 <= j < r.value ==> leaves[j].name != name
    ensures r.None? ==> forall j :: 0 <= j < |leaves| ==> leaves[j].name != name
  {
    if |leaves| == 0 then None
    else if leaves[0].name == name then Some(0)
    else
      match FirstNamed(leaves[1..], name)
      case None => None
      case Some(k) => Some(k + 1)
  }

  /** The first match in a concatenation is the first match of the left part, else a shifted match of the right part. */
  lemma {:induction false} FirstNamedAppend(a: seq<Item>, b: seq<Item>, name: string)
    ensures FirstNamed(a + b, name) ==
      (match FirstNamed(a, name)
       case Some(i) => Some(i)
       case None =>
         match FirstNamed(b, name)
         case Some(j) => Some(|a| + j)
         case None => None)
  {
    if |a| == 0 {
      assert a + b == b;
    } else if a[0].name != name {
      assert (a + b)[1..] == a[1..] + b;
      FirstNamedAppend(a[1..], b, name);
    }
  }

  /**
    The lookup returns exactly the first leaf named `name` in pre-order, and
    fails exactly when no leaf in pre-order has that name.
  */
  lemma {:induction false} FindIsFirstLeafInPreOrder(items: seq<Item>, name: string)
    ensures FindRequestByName(items, name) ==
      (match FirstNamed(Leaves(items), name)
       case Some(i) => Success(Leaves(items)[i])
       case None => Failure(NotFound(name)))
    decreases items
  {
    if |items| == 0 {
    } else {
      var rest := items[1..];
      FindIsFirstLeafInPreOrder(rest, name);
      match items[0]
      case Folder(_, children) =>
        FindIsFirstLeafInPreOrder(children, name);
        var lc, lr := Leaves(children), Leaves(rest);
        assert Leaves(items) == lc + lr;
        FirstNamedAppend(lc, lr, name);
        var fc, fr := FirstNamed(lc, name), FirstNamed(lr, name);
        if fc.Some? {
          assert (lc + lr)[fc.value] == lc[fc.value];
        } else if fr.Some? {
          assert (lc + lr)[|lc| + fr.value] == lr[fr.value];
        }
      case Leaf(_, _) =>
        var lr := Leaves(rest);
        assert Leaves(items) == [items[0]] + lr;
        FirstNamedAppend([items[0]], lr, name);
        var fr := FirstNamed(lr, name);
        if fr.Some? {
          assert ([items[0]] + lr)[1 + fr.value] == lr[fr.value];
        }
    }
  }

  /** The lookup fails if and only if no leaf anywhere in the tree has the name. */
  lemma {:induction false} NotFoundIffNoLeafNamed(items: seq<Item>, name: string)
    ensures FindRequestByName(items, name).Failure? <==> name !in LeafNames(items)
  {
    FindIsFirstLeafInPreOrder(items, name);
    var leaves := Leaves(items);
    var first := FirstNamed(leaves, name);
    if first.Some? {
      assert leaves[first.value] in leaves;
    }
    if name in LeafNames(items) {
      var leaf :| leaf in leaves && leaf.name == name;
      var k :| 0 <= k < |leaves| && leaves[k] == leaf;
      assert leaves[k].name == name;
    }
  }

  /**
    A successful lookup returns a leaf of the tree named `name`, and every leaf
    visited before it in pre-order has a different name.
  */
  lemma FoundIsFirstMatchingLeaf(items: seq<Item>, name: string) returns (i: nat)
    requires FindRequestByName(items, name).Success?
    ensures i < |Leaves(items)|
    ensures Leaves(items)[i] == FindRequestByName(items, name).value
    ensures Leaves(items)[i].Leaf? && Leaves(items)[i].name == name
    ensures forall j :: 0 <= j < i ==> Leaves(items)[j].name != name
  {
    FindIsFirstLeafInPreOrder(items, name);
    i := FirstNamed(Leaves(items), name).value;
  }

  /**
    A folder's own name is never matched, and a failed search inside a folder
    continues with that folder's next sibling.
  */
  lemma FolderIsSkippedOnMiss(folderName: string, children: seq<Item>, rest: seq<Item>, name: string)
    requires name !in LeafNames(children)
    ensures FindRequestByName([Folder(folderName, children)] + rest, name) == FindRequestByName(rest, name)
  {
    NotFoundIffNoLeafNamed(children, name);
    assert ([Folder(folderName, children)] + rest)[1..] == rest;
  }
}
