/**
  The concrete values the repository's own tests state: the distance matrix of
  "abcd" and "acbd", the last distance of "quickly" and "qucehkly", and the
  tracks that "quickly" and "qucehkly" align to.
 */
module AlignmentExamples {
  import opened OptimalAlignments

  const Abcd := "abcd"
  const Acbd := "acbd"
  const Quickly := "quickly"
  const Qucehkly := "qucehkly"

  const AbcdMatrix: seq<seq<nat>> := [
    [0, 1, 2, 3, 4],
    [1, 0, 1, 2, 3],
    [2, 1, 1, 1, 2],
    [3, 2, 1, 2, 2],
    [4, 3, 2, 2, 2]
  ]

  const QuicklyMatrix: seq<seq<nat>> := [
    [0, 1, 2, 3, 4, 5, 6, 7, 8],
    [1, 0, 1, 2, 3, 4, 5, 6, 7],
    [2, 1, 0, 1, 2, 3, 4, 5, 6],
    [3, 2, 1, 1, 2, 3, 4, 5, 6],
    [4, 3, 2, 1, 2, 3, 4, 5, 6],
    [5, 4, 3, 2, 2, 3, 3, 4, 5],
    [6, 5, 4, 3, 3, 3, 4, 3, 4],
    [7, 6, 5, 4, 4, 4, 4, 4, 3]
  ]

  /** The recurrence holds in every cell of `AbcdMatrix`. */
  lemma AbcdMatrixIsMsd()
    ensures IsMsd(AbcdMatrix, Abcd, Acbd)
  {
    assert IsMatrix(AbcdMatrix, Abcd, Acbd);
    forall i, j | 1 <= i <= 4 && 1 <= j <= 4 ensures CellOk(AbcdMatrix, Abcd, Acbd, i, j) {
      assert i == 1 || i == 2 || i == 3 || i == 4;
      assert j == 1 || j == 2 || j == 3 || j == 4;
    }
    forall i | 0 <= i <= 4 ensures AbcdMatrix[i][0] == i {
      assert i == 0 || i == 1 || i == 2 || i == 3 || i == 4;
    }
    forall j | 0 <= j <= 4 ensures AbcdMatrix[0][j] == j {
      assert j == 0 || j == 1 || j == 2 || j == 3 || j == 4;
    }
  }

  // The recurrence is checked one row of `QuicklyMatrix` at a time: one lemma over
  // every cell at once is more than the solver's budget for a single proof.

  lemma QuicklyRow1()
    ensures IsMatrix(QuicklyMatrix, Quickly, Qucehkly)
    ensures forall j | 1 <= j <= 8 :: CellOk(QuicklyMatrix, Quickly, Qucehkly, 1, j)
  {
    assert IsMatrix(QuicklyMatrix, Quickly, Qucehkly);
    forall j | 1 <= j <= 8 ensures CellOk(QuicklyMatrix, Quickly, Qucehkly, 1, j) {
      assert j == 1 || j == 2 || j == 3 || j == 4 || j == 5 || j == 6 || j == 7 || j == 8;
    }
  }

  lemma QuicklyRow2()
    ensures IsMatrix(QuicklyMatrix, Quickly, Qucehkly)
    ensures forall j | 1 <= j <= 8 :: CellOk(QuicklyMatrix, Quickly, Qucehkly, 2, j)
  {
    assert IsMatrix(QuicklyMatrix, Quickly, Qucehkly);
    forall j | 1 <= j <= 8 ensures CellOk(QuicklyMatrix, Quickly, Qucehkly, 2, j) {
      assert j == 1 || j == 2 || j == 3 || j == 4 || j == 5 || j == 6 || j == 7 || j == 8;
    }
  }

  lemma QuicklyRow3()
    ensures IsMatrix(QuicklyMatrix, Quickly, Qucehkly)
    ensures forall j | 1 <= j <= 8 :: CellOk(QuicklyMatrix, Quickly, Qucehkly, 3, j)
  {
    assert IsMatrix(QuicklyMatrix, Quickly, Qucehkly);
    forall j | 1 <= j <= 8 ensures CellOk(QuicklyMatrix, Quickly, Qucehkly, 3, j) {
      assert j == 1 || j == 2 || j == 3 || j == 4 || j == 5 || j == 6 || j == 7 || j == 8;
    }
  }

  lemma QuicklyRow4()
    ensures IsMatrix(QuicklyMatrix, Quickly, Qucehkly)
    ensures forall j | 1 <= j <= 8 :: CellOk(QuicklyMatrix, Quickly, Qucehkly, 4, j)
  {
    assert IsMatrix(QuicklyMatrix, Quickly, Qucehkly);
    forall j | 1 <= j <= 8 ensures CellOk(QuicklyMatrix, Quickly, Qucehkly, 4, j) {
      assert j == 1 || j == 2 || j == 3 || j == 4 || j == 5 || j == 6 || j == 7 || j == 8;
    }
  }

  lemma QuicklyRow5()
    ensures IsMatrix(QuicklyMatrix, Quickly, Qucehkly)
    ensures forall j | 1 <= j <= 8 :: CellOk(QuicklyMatrix, Quickly, Qucehkly, 5, j)
  {
    assert IsMatrix(QuicklyMatrix, Quickly, Qucehkly);
    forall j | 1 <= j <= 8 ensures CellOk(QuicklyMatrix, Quickly, Qucehkly, 5, j) {
      assert j == 1 || j == 2 || j == 3 || j == 4 || j == 5 || j == 6 || j == 7 || j == 8;
    }
  }

  lemma QuicklyRow6()
    ensures IsMatrix(QuicklyMatrix, Quickly, Qucehkly)
    ensures forall j | 1 <= j <= 8 :: CellOk(QuicklyMatrix, Quickly, Qucehkly, 6, j)
  {
    assert IsMatrix(QuicklyMatrix, Quickly, Qucehkly);
    forall j | 1 <= j <= 8 ensures CellOk(QuicklyMatrix, Quickly, Qucehkly, 6, j) {
      assert j == 1 || j == 2 || j == 3 || j == 4 || j == 5 || j == 6 || j == 7 || j == 8;
    }
  }

  lemma QuicklyRow7()
    ensures IsMatrix(QuicklyMatrix, Quickly, Qucehkly)
    ensures forall j | 1 <= j <= 8 :: CellOk(QuicklyMatrix, Quickly, Qucehkly, 7, j)
  {
    assert IsMatrix(QuicklyMatrix, Quickly, Qucehkly);
    forall j | 1 <= j <= 8 ensures CellOk(QuicklyMatrix, Quickly, Qucehkly, 7, j) {
      assert j == 1 || j == 2 || j == 3 || j == 4 || j == 5 || j == 6 || j == 7 || j == 8;
    }
  }

  /** The recurrence holds in every cell of `QuicklyMatrix`. */
  lemma QuicklyMatrixIsMsd()
    ensures IsMsd(QuicklyMatrix, Quickly, Qucehkly)
  {
    QuicklyRow1(); QuicklyRow2(); QuicklyRow3(); QuicklyRow4(); QuicklyRow5(); QuicklyRow6(); QuicklyRow7();
    forall i, j | 1 <= i <= 7 && 1 <= j <= 8 ensures CellOk(QuicklyMatrix, Quickly, Qucehkly, i, j) {
      assert i == 1 || i == 2 || i == 3 || i == 4 || i == 5 || i == 6 || i == 7;
    }
    forall i | 0 <= i <= 7 ensures QuicklyMatrix[i][0] == i {
      assert i == 0 || i == 1 || i == 2 || i == 3 || i == 4 || i == 5 || i == 6 || i == 7;
    }
    forall j | 0 <= j <= 8 ensures QuicklyMatrix[0][j] == j {
      assert j == 0 || j == 1 || j == 2 || j == 3 || j == 4 || j == 5 || j == 6 || j == 7 || j == 8;
    }
  }

  /** The distance matrix of "abcd" and "acbd" is the one the tests expect. */
  lemma MsdAbcdAcbd()
    ensures MsdMatrix(Abcd, Acbd) == [
      [0, 1, 2, 3, 4],
      [1, 0, 1, 2, 3],
      [2, 1, 1, 1, 2],
      [3, 2, 1, 2, 2],
      [4, 3, 2, 2, 2]
    ]
  {
    AbcdMatrixIsMsd();
    MsdUnique(AbcdMatrix, Abcd, Acbd);
  }

  /** "quickly" is three edits away from "qucehkly". */
  lemma MsdQuicklyQucehkly()
    ensures MsdMatrix(Quickly, Qucehkly)[7][8] == 3
    ensures Lev(Quickly, Qucehkly, 7, 8) == 3
  {
    QuicklyMatrixIsMsd();
    MsdUnique(QuicklyMatrix, Quickly, Qucehkly);
  }

  // The greedy walk for "quickly" and "qucehkly", one cell per lemma, each
  // building on the one before: the whole walk unfolded in one proof is more
  // than the solver's budget for a single proof.

  lemma QuicklyPrefix1()
    requires IsMsd(QuicklyMatrix, Quickly, Qucehkly)
    ensures Backtrace(QuicklyMatrix, Quickly, Qucehkly, 1, 1)
         == Alignment([Character('q')], [Character('q')])
  {
    assert Backtrace(QuicklyMatrix, Quickly, Qucehkly, 1, 1)
        == Backtrace(QuicklyMatrix, Quickly, Qucehkly, 0, 0).Extend(Character('q'), Character('q'));
  }

  lemma QuicklyPrefix2()
    requires IsMsd(QuicklyMatrix, Quickly, Qucehkly)
    ensures Backtrace(QuicklyMatrix, Quickly, Qucehkly, 2, 2)
         == Alignment([Character('q'), Character('u')], [Character('q'), Character('u')])
  {
    QuicklyPrefix1();
    assert Backtrace(QuicklyMatrix, Quickly, Qucehkly, 2, 2)
        == Backtrace(QuicklyMatrix, Quickly, Qucehkly, 1, 1).Extend(Character('u'), Character('u'));
  }

  lemma QuicklyPrefix3()
    requires IsMsd(QuicklyMatrix, Quickly, Qucehkly)
    ensures Backtrace(QuicklyMatrix, Quickly, Qucehkly, 3, 2)
         == Alignment([Character('q'), Character('u'), Character('i')], [Character('q'), Character('u'), Null])
  {
    QuicklyPrefix2();
    assert Backtrace(QuicklyMatrix, Quickly, Qucehkly, 3, 2)
        == Backtrace(QuicklyMatrix, Quickly, Qucehkly, 2, 2).Extend(Character('i'), Null);
  }

  lemma QuicklyPrefix4()
    requires IsMsd(QuicklyMatrix, Quickly, Qucehkly)
    ensures Backtrace(QuicklyMatrix, Quickly, Qucehkly, 4, 3)
         == Alignment([Character('q'), Character('u'), Character('i'), Character('c')], [Character('q'), Character('u'), Null, Character('c')])
  {
    QuicklyPrefix3();
    assert Backtrace(QuicklyMatrix, Quickly, Qucehkly, 4, 3)
        == Backtrace(QuicklyMatrix, Quickly, Qucehkly, 3, 2).Extend(Character('c'), Character('c'));
  }

  lemma QuicklyPrefix5()
    requires IsMsd(QuicklyMatrix, Quickly, Qucehkly)
    ensures Backtrace(QuicklyMatrix, Quickly, Qucehkly, 4, 4)
         == Alignment([Character('q'), Character('u'), Character('i'), Character('c'), Null], [Character('q'), Character('u'), Null, Character('c'), Character('e')])
  {
    QuicklyPrefix4();
    assert Backtrace(QuicklyMatrix, Quickly, Qucehkly, 4, 4)
        == Backtrace(QuicklyMatrix, Quickly, Qucehkly, 4, 3).Extend(Null, Character('e'));
  }

  lemma QuicklyPrefix6()
    requires IsMsd(QuicklyMatrix, Quickly, Qucehkly)
    ensures Backtrace(QuicklyMatrix, Quickly, Qucehkly, 4, 5)
         == Alignment([Character('q'), Character('u'), Character('i'), Character('c'), Null, Null], [Character('q'), Character('u'), Null, Character('c'), Character('e'), Character('h')])
  {
    QuicklyPrefix5();
    assert Backtrace(QuicklyMatrix, Quickly, Qucehkly, 4, 5)
        == Backtrace(QuicklyMatrix, Quickly, Qucehkly, 4, 4).Extend(Null, Character('h'));
  }

  lemma QuicklyPrefix7()
    requires IsMsd(QuicklyMatrix, Quickly, Qucehkly)
    ensures Backtrace(QuicklyMatrix, Quickly, Qucehkly, 5, 6)
         == Alignment([Character('q'), Character('u'), Character('i'), Character('c'), Null, Null, Character('k')], [Character('q'), Character('u'), Null, Character('c'), Character('e'), Character('h'), Character('k')])
  {
    QuicklyPrefix6();
    assert Backtrace(QuicklyMatrix, Quickly, Qucehkly, 5, 6)
        == Backtrace(QuicklyMatrix, Quickly, Qucehkly, 4, 5).Extend(Character('k'), Character('k'));
  }

  lemma QuicklyPrefix8()
    requires IsMsd(QuicklyMatrix, Quickly, Qucehkly)
    ensures Backtrace(QuicklyMatrix, Quickly, Qucehkly, 6, 7)
         == Alignment([Character('q'), Character('u'), Character('i'), Character('c'), Null, Null, Character('k'), Character('l')], [Character('q'), Character('u'), Null, Character('c'), Character('e'), Character('h'), Character('k'), Character('l')])
  {
    QuicklyPrefix7();
    assert Backtrace(QuicklyMatrix, Quickly, Qucehkly, 6, 7)
        == Backtrace(QuicklyMatrix, Quickly, Qucehkly, 5, 6).Extend(Character('l'), Character('l'));
  }

  lemma QuicklyPrefix9()
    requires IsMsd(QuicklyMatrix, Quickly, Qucehkly)
    ensures Backtrace(QuicklyMatrix, Quickly, Qucehkly, 7, 8)
         == Alignment([Character('q'), Character('u'), Character('i'), Character('c'), Null, Null, Character('k'), Character('l'), Character('y')], [Character('q'), Character('u'), Null, Character('c'), Character('e'), Character('h'), Character('k'), Character('l'), Character('y')])
  {
    QuicklyPrefix8();
    assert Backtrace(QuicklyMatrix, Quickly, Qucehkly, 7, 8)
        == Backtrace(QuicklyMatrix, Quickly, Qucehkly, 6, 7).Extend(Character('y'), Character('y'));
  }

  /**
    "quickly" against "qucehkly" aligns to q,u,i,c,-,-,k,l,y over
    q,u,-,c,e,h,k,l,y: nine cells, one omission and two insertions.
   */
  lemma AlignQuicklyQucehkly()
    ensures IsMsd(MsdMatrix(Quickly, Qucehkly), Quickly, Qucehkly)
    ensures Backtrace(MsdMatrix(Quickly, Qucehkly), Quickly, Qucehkly, 7, 8)
         == Alignment([Character('q'), Character('u'), Character('i'), Character('c'), Null, Null, Character('k'), Character('l'), Character('y')],
                      [Character('q'), Character('u'), Null, Character('c'), Character('e'), Character('h'), Character('k'), Character('l'), Character('y')])
  {
    QuicklyMatrixIsMsd();
    MsdUnique(QuicklyMatrix, Quickly, Qucehkly);
    QuicklyPrefix9();
  }

  /** `Msd` fills the expected matrix for "abcd" and "acbd". */
  method MsdAbcdAcbdArray() returns (d: array2<nat>)
    ensures Snapshot(d) == AbcdMatrix
  {
    d := OptimalAlignments.Msd(Abcd, Acbd);
    MsdUnique(Snapshot(d), Abcd, Acbd);
    MsdAbcdAcbd();
  }

  /** The alignment object for "quickly" and "qucehkly" holds the expected nine-cell tracks. */
  method AlignQuicklyQucehklyObject() returns (o: OptimalAlignments)
    ensures o.Tracks() == Alignment([Character('q'), Character('u'), Character('i'), Character('c'), Null, Null, Character('k'), Character('l'), Character('y')],
                                    [Character('q'), Character('u'), Null, Character('c'), Character('e'), Character('h'), Character('k'), Character('l'), Character('y')])
    ensures o.len == 9
  {
    o := new OptimalAlignments(Quickly, Qucehkly);
    AlignQuicklyQucehkly();
  }
}
