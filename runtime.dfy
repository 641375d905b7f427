/**
  The few pieces of the Java runtime that the traversals in Build.java use:
  a nullable reference (Option), java.util.HashSet as a mutable set object,
  and System.out as a print stream whose printed lines are kept in order.
 */
module Runtime {

  /** A possibly-null reference: `None` stands for Java's `null`. */
  datatype Option<T> = None | Some(value: T)

  /** java.util.HashSet: a set object updated in place by `Add`. */
  class HashSet<T(==)> {
    var elems: set<T>

    constructor ()
      ensures elems == {}
    {
      elems := {};
    }

    predicate Contains(x: T)
      reads this
    {
      x in elems
    }

    method Add(x: T)
      modifies this
      ensures elems == old(elems) + {x}
    {
      elems := elems + {x};
    }
  }

  /** System.out: every `Println` appends one line to what has been printed so far. */
  class PrintStream<T> {
    var lines: seq<T>

    constructor ()
      ensures lines == []
    {
      lines := [];
    }

    method Println(x: T)
      modifies this
      ensures lines == old(lines) + [x]
    {
      lines := lines + [x];
    }
  }
}
