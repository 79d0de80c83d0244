/** Which of the system's entries the preloaded functions keep: those of the one
    interface that the environment names, and the loopback interface. */
module NameFilter {
  import opened Basics

  /** The shortest name that is too long for the kernel. */
  const IFNAMSIZ := 16

  /** selected_interface: the value of the environment variable, if it is one name. */
  function Selected(variable: Option<string>): Option<string> {
    match variable
    case None => None
    case Some(name) =>
      if name == "" || name == "all" || |name| >= IFNAMSIZ || '/' in name || ',' in name then None else Some(name)
  }

  predicate Keep(name: Option<string>, selected: string) {
    name.Some? && (name.value == selected || name.value == "lo")
  }

  /** The first n items without those that the filter drops, in order. */
  function Kept<T>(items: seq<T>, name: T -> Option<string>, selected: string, n: nat): (kept: seq<T>)
    requires n <= |items|
    ensures |kept| <= n
  {
    if n == 0 then []
    else if Keep(name(items[n - 1]), selected) then Kept(items, name, selected, n - 1) + [items[n - 1]]
    else Kept(items, name, selected, n - 1)
  }

  /** Where the i-th of them stood: they are items to keep ... */
  function Position<T>(items: seq<T>, name: T -> Option<string>, selected: string, n: nat, i: nat): (k: nat)
    requires n <= |items| && i < |Kept(items, name, selected, n)|
    ensures k < n && Kept(items, name, selected, n)[i] == items[k] && Keep(name(items[k]), selected)
    decreases n
  {
    if i == |Kept(items, name, selected, n - 1)| then n - 1 else Position(items, name, selected, n - 1, i)
  }

  /** ... in their order ... */
  lemma {:induction false} KeptInOrder<T>(items: seq<T>, name: T -> Option<string>, selected: string, n: nat,
                                          i: nat, j: nat)
    requires n <= |items| && i < j < |Kept(items, name, selected, n)|
    ensures Position(items, name, selected, n, i) < Position(items, name, selected, n, j)
    decreases n
  {
    if j < |Kept(items, name, selected, n - 1)| {
      KeptInOrder(items, name, selected, n - 1, i, j);
    }
  }

  /** ... and all of them. */
  lemma {:induction false} KeptIsComplete<T>(items: seq<T>, name: T -> Option<string>, selected: string, n: nat, k: nat)
    requires k < n <= |items| && Keep(name(items[k]), selected)
    ensures items[k] in Kept(items, name, selected, n)
    decreases n
  {
    if k < n - 1 {
      KeptIsComplete(items, name, selected, n - 1, k);
    }
  }

  lemma {:induction false} KeptGrows<T>(items: seq<T>, name: T -> Option<string>, selected: string, n: nat, m: nat)
    requires n <= m <= |items|
    ensures |Kept(items, name, selected, n)| <= |Kept(items, name, selected, m)|
    ensures n < m && Keep(name(items[n]), selected) ==>
              |Kept(items, name, selected, n)| < |Kept(items, name, selected, m)|
    decreases m
  {
    if n < m {
      KeptGrows(items, name, selected, n, m - 1);
    }
  }

  predicate Mentions<T>(items: seq<T>, name: T -> Option<string>, selected: string, n: nat)
    requires n <= |items|
  {
    exists i :: 0 <= i < n && name(items[i]) == Some(selected)
  }

  predicate Available<T>(items: seq<T>, name: T -> Option<string>, selected: Option<string>) {
    selected.Some? && Mentions(items, name, selected.value, |items|)
  }

  /** With the selected interface in it a filtered list is not empty. */
  lemma {:induction false} KeptMentions<T>(items: seq<T>, name: T -> Option<string>, selected: string, n: nat)
    requires n <= |items| && Mentions(items, name, selected, n)
    ensures Kept(items, name, selected, n) != []
  {
    if name(items[n - 1]) != Some(selected) {
      KeptMentions(items, name, selected, n - 1);
    }
  }
}
