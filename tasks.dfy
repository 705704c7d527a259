/** The value type the ledger stores, and the keyword comparison used by search. */
module Tasks {

  /** The ledger's "no result" outcome, which the Java code signals with null. */
  datatype Option<+T> = None | Some(value: T)

  /**
   * A task: name, due date (text in YYYY-MM-DD form) and priority text.
   * Two tasks are the same task exactly when all three fields agree.
   */
  datatype Task = Task(name: string, dueDate: string, priority: string)

  /** Folds an ASCII upper-case letter to lower case; every other character is kept. */
  function FoldCase(c: char): (r: char)
  {
    if 'A' <= c <= 'Z' then (c as int + 32) as char else c
  }

  /**
   * String.equalsIgnoreCase: the same length, and each pair of characters at the
   * same position equal once case is folded.
   */
  predicate EqualsIgnoreCase(a: string, b: string)
    ensures a == b ==> EqualsIgnoreCase(a, b)
    ensures EqualsIgnoreCase(a, b) <==> FoldAll(a) == FoldAll(b)
  {
    |a| == |b| && forall i :: 0 <= i < |a| ==> FoldCase(a[i]) == FoldCase(b[i])
  }

  /** The string with every character case-folded; a proof aid for EqualsIgnoreCase. */
  function FoldAll(s: string): (r: string)
    ensures |r| == |s| && forall i :: 0 <= i < |s| ==> r[i] == FoldCase(s[i])
  {
    seq(|s|, i requires 0 <= i < |s| => FoldCase(s[i]))
  }

  /** The search criterion: the keyword equals the name or the due date, ignoring case. */
  predicate Matches(t: Task, keyword: string)
    ensures keyword == t.name || keyword == t.dueDate ==> Matches(t, keyword)
    ensures Matches(t, keyword) ==> |keyword| == |t.name| || |keyword| == |t.dueDate|
  {
    EqualsIgnoreCase(t.name, keyword) || EqualsIgnoreCase(t.dueDate, keyword)
  }

  /** Ignoring case is an equivalence: reflexive, symmetric and transitive. */
  lemma EqualsIgnoreCaseIsEquivalence(a: string, b: string, c: string)
    ensures EqualsIgnoreCase(a, a)
    ensures EqualsIgnoreCase(a, b) ==> EqualsIgnoreCase(b, a)
    ensures EqualsIgnoreCase(a, b) && EqualsIgnoreCase(b, c) ==> EqualsIgnoreCase(a, c)
  {
  }

  /** Two keywords that differ only in case select exactly the same tasks. */
  lemma MatchesIgnoresKeywordCase(t: Task, k1: string, k2: string)
    requires EqualsIgnoreCase(k1, k2)
    ensures Matches(t, k1) <==> Matches(t, k2)
  {
  }
}
