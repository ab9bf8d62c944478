/**
  The grade-book program run on the node store: five insertions, a copy made
  by the copy constructor, a search, the in-order listing, the copy's height before and after
  removing "Ellen", and the height of the tree it was copied from, which the
  removal does not touch.
 */
module StoreScenario {
  import opened KeyOrder
  import opened Trees
  import opened Wrappers
  import opened LinkedTree
  import Lookup
  import Insertion
  import Removal
  import Scenario
  import LinkedSearch
  import LinkedInsert
  import LinkedRemove
  import LinkedCopy

  /**
    The program's steps, with either variant of insert and remove: Ellen's
    grade is found, `printInorder` lists the students alphabetically, the
    copy has height 3 and then 2, and the original keeps height 3.
   */
  method GradeBookRun(iterative: bool)
    returns (grade: Result<real, Lookup.SearchError>, listing: seq<(Key, real)>, before: int, after: int, original: int)
    ensures grade == Success(3.5)
    ensures listing == [("Chen", 2.5), ("Ellen", 3.5), ("Kevin", 3.25), ("Kumar", 3.05), ("Ricardo", 2.5)]
    ensures before == 3 && after == 2 && original == 3
  {
    var a: Linked<real> := Linked([], Null);
    a := LinkedInsert.Insert(a, "Ricardo", 2.5, iterative, Leaf);
    ghost var t := Insertion.Insert(Leaf, "Ricardo", 2.5);
    a := LinkedInsert.Insert(a, "Ellen", 3.5, iterative, t);
    t := Insertion.Insert(t, "Ellen", 3.5);
    a := LinkedInsert.Insert(a, "Chen", 2.5, iterative, t);
    t := Insertion.Insert(t, "Chen", 2.5);
    a := LinkedInsert.Insert(a, "Kevin", 3.25, iterative, t);
    t := Insertion.Insert(t, "Kevin", 3.25);
    a := LinkedInsert.Insert(a, "Kumar", 3.05, iterative, t);
    t := Insertion.Insert(t, "Kumar", 3.05);
    assert t == Scenario.GradeBook();
    Scenario.GradeBookScenario();
    Scenario.RemoveEllenScenario();

    var gradeBook := LinkedCopy.CopyTree(a, t);
    grade := LinkedSearch.Search(a, "Ellen", iterative, t);
    listing := LinkedSearch.InorderFrom(a.cells, a.root, Null, t);
    before := LinkedSearch.GetHeight(gradeBook.cells, gradeBook.root, Null, t);
    gradeBook := LinkedRemove.RemoveKey(gradeBook, "Ellen", iterative, t);
    after := LinkedSearch.GetHeight(gradeBook.cells, gradeBook.root, Null, Removal.Remove(t, "Ellen"));
    original := LinkedSearch.GetHeight(a.cells, a.root, Null, t);
  }
}
