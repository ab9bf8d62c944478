/**
  The grade-book scenario: five students inserted in the order
  Ricardo, Ellen, Chen, Kevin, Kumar give the tree

              Ricardo
              /
          Ellen
          /   \
       Chen   Kevin
                  \
                  Kumar

  of height 3. Removing "Ellen" (a node with two children) moves her in-order
  successor Kevin into her place and leaves a tree of height 2; the tree it
  was copied from keeps height 3.
 */
module Scenario {
  import opened KeyOrder
  import opened Trees
  import opened Wrappers
  import opened Lookup
  import opened Insertion
  import opened Removal

  function GradeBook(): Tree<real>
  {
    var t0 := Insert(Leaf, "Ricardo", 2.5);
    var t1 := Insert(t0, "Ellen", 3.5);
    var t2 := Insert(t1, "Chen", 2.5);
    var t3 := Insert(t2, "Kevin", 3.25);
    Insert(t3, "Kumar", 3.05)
  }

  /** The shape the five insertions build. */
  lemma GradeBookShape()
    ensures GradeBook()
         == Node(Node(Node(Leaf, "Chen", 2.5, Leaf), "Ellen", 3.5,
                      Node(Leaf, "Kevin", 3.25, Node(Leaf, "Kumar", 3.05, Leaf))),
                 "Ricardo", 2.5, Leaf)
  {
    assert Less("Ellen", "Ricardo") && Less("Chen", "Ricardo") && Less("Kevin", "Ricardo")
      && Less("Kumar", "Ricardo") && Less("Chen", "Ellen");
    assert !Less("Kevin", "Ellen") && !Less("Kumar", "Ellen") && !Less("Kumar", "Kevin");
    var chen := Node(Leaf, "Chen", 2.5, Leaf);
    var t1 := Insert(Insert(Leaf, "Ricardo", 2.5), "Ellen", 3.5);
    assert t1 == Node(Node(Leaf, "Ellen", 3.5, Leaf), "Ricardo", 2.5, Leaf);
    var t2 := Insert(t1, "Chen", 2.5);
    assert t2 == Node(Node(chen, "Ellen", 3.5, Leaf), "Ricardo", 2.5, Leaf);
    var t3 := Insert(t2, "Kevin", 3.25);
    assert t3 == Node(Node(chen, "Ellen", 3.5, Node(Leaf, "Kevin", 3.25, Leaf)), "Ricardo", 2.5, Leaf);
    assert Insert(Node(Leaf, "Kevin", 3.25, Leaf), "Kumar", 3.05)
        == Node(Leaf, "Kevin", 3.25, Node(Leaf, "Kumar", 3.05, Leaf));
  }

  /** The grade book has height 3, finds Ellen's grade and lists the students alphabetically. */
  lemma GradeBookScenario()
    ensures Height(GradeBook()) == 3
    ensures Search(GradeBook(), "Ellen") == Success(3.5)
    ensures Inorder(GradeBook())
         == [("Chen", 2.5), ("Ellen", 3.5), ("Kevin", 3.25), ("Kumar", 3.05), ("Ricardo", 2.5)]
  {
    GradeBookShape();
    var kevin := Node(Leaf, "Kevin", 3.25, Node(Leaf, "Kumar", 3.05, Leaf));
    var ellen := Node(Node(Leaf, "Chen", 2.5, Leaf), "Ellen", 3.5, kevin);
    assert GradeBook() == Node(ellen, "Ricardo", 2.5, Leaf);
    assert Height(GradeBook()) == 3 by {
      assert Height(kevin) == 1 && Height(ellen) == 2;
    }
    assert Search(GradeBook(), "Ellen") == Success(3.5) by {
      assert Less("Ellen", "Ricardo");
    }
    assert Inorder(GradeBook()) == Inorder(ellen) + [("Ricardo", 2.5)];
    assert Inorder(ellen) == [("Chen", 2.5), ("Ellen", 3.5), ("Kevin", 3.25), ("Kumar", 3.05)] by {
      assert Inorder(kevin) == [("Kevin", 3.25), ("Kumar", 3.05)];
    }
  }

  /**
    Removing Ellen from a copy of the grade book: Kevin, her in-order
    successor, takes her place, the copy's height drops to 2 and the
    original still has height 3.
   */
  lemma RemoveEllenScenario()
    ensures var copy := Remove(GradeBook(), "Ellen");
      && copy == Node(Node(Node(Leaf, "Chen", 2.5, Leaf), "Kevin", 3.25, Node(Leaf, "Kumar", 3.05, Leaf)),
                      "Ricardo", 2.5, Leaf)
      && Height(copy) == 2
    ensures Height(GradeBook()) == 3
  {
    GradeBookShape();
    var kumar := Node(Leaf, "Kumar", 3.05, Leaf);
    var kevin := Node(Leaf, "Kevin", 3.25, kumar);
    var ellen := Node(Node(Leaf, "Chen", 2.5, Leaf), "Ellen", 3.5, kevin);
    var kevin' := Node(Node(Leaf, "Chen", 2.5, Leaf), "Kevin", 3.25, kumar);
    assert GradeBook() == Node(ellen, "Ricardo", 2.5, Leaf);
    assert Remove(GradeBook(), "Ellen") == Node(RemoveRoot(ellen), "Ricardo", 2.5, Leaf) by {
      assert Less("Ellen", "Ricardo");
    }
    assert RemoveRoot(ellen) == kevin' by {
      assert LeftmostNode(kevin) == kevin && RemoveMin(kevin) == kumar;
    }
    assert Height(kevin') == 1;
    assert Height(GradeBook()) == 3 by {
      GradeBookScenario();
    }
  }
}
