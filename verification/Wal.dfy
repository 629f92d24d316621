/** A database file with its write-ahead log: what a fresh open finds, and what checkpoints,
    complete or cut short, do to it. */
module Wal {
  import opened Common

  type Pages = map<nat, string>

  datatype Frame = Frame(page: nat, data: string)

  /** What a fresh open finds: nothing, or a complete database. */
  type View = Option<Pages>

  /** Opening a database overlays the main file with the frames of its WAL, oldest first. */
  function Replay(main: Pages, wal: seq<Frame>): Pages {
    if wal == [] then main
    else Replay(main, wal[..|wal| - 1])[wal[|wal| - 1].page := wal[|wal| - 1].data]
  }

  function Open(main: Option<Pages>, wal: seq<Frame>): View {
    if main.None? then None else Some(Replay(main.value, wal))
  }

  /** A page shows the newest frame that holds it, or the main file when none does. */
  lemma {:induction false} NewestFrameShown(main: Pages, wal: seq<Frame>, i: nat)
    requires i < |wal| && forall j :: i < j < |wal| ==> wal[j].page != wal[i].page
    ensures wal[i].page in Replay(main, wal) && Replay(main, wal)[wal[i].page] == wal[i].data
    decreases |wal|
  {
    if i < |wal| - 1 {
      var init := wal[..|wal| - 1];
      assert forall j :: i < j < |init| ==> init[j] == wal[j];
      NewestFrameShown(main, init, i);
    }
  }

  // ---- checkpoints ----

  /** A checkpoint copies one page, as the first `upto` frames leave it, into the main file. */
  datatype Copy = Copy(page: nat, upto: nat)

  predicate InWal(wal: seq<Frame>, page: nat) {
    exists i :: 0 <= i < |wal| && wal[i].page == page
  }

  function CopyPage(main: Pages, wal: seq<Frame>, c: Copy): Pages {
    if c.upto <= |wal| && InWal(wal[..c.upto], c.page) && c.page in Replay(main, wal[..c.upto])
    then main[c.page := Replay(main, wal[..c.upto])[c.page]]
    else main
  }

  function CopyAll(main: Pages, wal: seq<Frame>, cs: seq<Copy>): Pages {
    if cs == [] then main else CopyPage(CopyAll(main, wal, cs[..|cs| - 1]), wal, cs[|cs| - 1])
  }

  /** A complete checkpoint copies every page of the WAL. */
  function FullCopy(wal: seq<Frame>): seq<Copy> {
    seq(|wal|, i requires 0 <= i < |wal| => Copy(wal[i].page, |wal|))
  }

  /** A page that the WAL holds may have any content in the main file. */
  lemma {:induction false} OverwrittenPage(main: Pages, wal: seq<Frame>, page: nat, data: string)
    requires InWal(wal, page)
    ensures Replay(main[page := data], wal) == Replay(main, wal)
  {
    var init, last := wal[..|wal| - 1], wal[|wal| - 1];
    InWalSplit(wal, page);
    if InWal(init, page) {
      OverwrittenPage(main, init, page, data);
    } else {
      ReplayUpdate(main, init, page, data);
    }
  }

  lemma InWalSplit(wal: seq<Frame>, page: nat)
    requires wal != []
    ensures InWal(wal, page) <==> InWal(wal[..|wal| - 1], page) || wal[|wal| - 1].page == page
  {
    if InWal(wal, page) {
      var i :| 0 <= i < |wal| && wal[i].page == page;
      assert i < |wal| - 1 ==> wal[..|wal| - 1][i].page == page;
    }
    if InWal(wal[..|wal| - 1], page) {
      var i :| 0 <= i < |wal| - 1 && wal[..|wal| - 1][i].page == page;
      assert wal[i].page == page;
    }
  }

  lemma {:induction false} ReplayUpdate(main: Pages, wal: seq<Frame>, page: nat, data: string)
    requires !InWal(wal, page)
    ensures Replay(main[page := data], wal) == Replay(main, wal)[page := data]
  {
    if wal != [] {
      var init, last := wal[..|wal| - 1], wal[|wal| - 1];
      InWalSplit(wal, page);
      ReplayUpdate(main, init, page, data);
    }
  }

  /** Replaying after any partial checkpoint gives the same database. */
  lemma CopyKeepsReplay(main: Pages, wal: seq<Frame>, c: Copy)
    ensures Replay(CopyPage(main, wal, c), wal) == Replay(main, wal)
  {
    if c.upto <= |wal| && InWal(wal[..c.upto], c.page) && c.page in Replay(main, wal[..c.upto]) {
      var i :| 0 <= i < c.upto && wal[..c.upto][i].page == c.page;
      assert wal[i].page == c.page;
      OverwrittenPage(main, wal, c.page, Replay(main, wal[..c.upto])[c.page]);
    }
  }

  lemma {:induction false} CopyAllKeepsReplay(main: Pages, wal: seq<Frame>, cs: seq<Copy>)
    ensures Replay(CopyAll(main, wal, cs), wal) == Replay(main, wal)
  {
    if cs != [] {
      CopyAllKeepsReplay(main, wal, cs[..|cs| - 1]);
      CopyKeepsReplay(CopyAll(main, wal, cs[..|cs| - 1]), wal, cs[|cs| - 1]);
    }
  }

  /** A page the WAL does not hold is shown as the main file has it. */
  lemma {:induction false} ReplayAt(main: Pages, wal: seq<Frame>, page: nat)
    ensures InWal(wal, page) ==> page in Replay(main, wal)
    ensures !InWal(wal, page) ==> (page in Replay(main, wal) <==> page in main)
    ensures !InWal(wal, page) && page in main ==> Replay(main, wal)[page] == main[page]
  {
    if wal != [] {
      InWalSplit(wal, page);
      ReplayAt(main, wal[..|wal| - 1], page);
    }
  }

  ghost predicate Backfilled(main: Pages, full: Pages, wal: seq<Frame>, i: nat)
    requires i <= |wal|
  {
    forall page :: InWal(wal[..i], page) || !InWal(wal, page) ==>
      if page in full then page in main && main[page] == full[page] else page !in main
  }

  lemma {:induction false} FullCopyPrefix(main: Pages, wal: seq<Frame>, i: nat)
    requires i <= |wal|
    ensures Backfilled(CopyAll(main, wal, FullCopy(wal)[..i]), Replay(main, wal), wal, i)
    decreases i
  {
    var full := Replay(main, wal);
    var m := CopyAll(main, wal, FullCopy(wal)[..i]);
    forall page | InWal(wal[..i], page) || !InWal(wal, page)
      ensures if page in full then page in m && m[page] == full[page] else page !in m
    {
      ReplayAt(main, wal, page);
      if i > 0 {
        FullCopyStep(main, wal, i, page);
      }
    }
  }

  lemma {:induction false} FullCopyStep(main: Pages, wal: seq<Frame>, i: nat, page: nat)
    requires 0 < i <= |wal| && (InWal(wal[..i], page) || !InWal(wal, page))
    ensures var m, full := CopyAll(main, wal, FullCopy(wal)[..i]), Replay(main, wal);
      if page in full then page in m && m[page] == full[page] else page !in m
    decreases i, 0
  {
    FullCopyPrefix(main, wal, i - 1);
    FullCopyLast(main, wal, i);
    if page != wal[i - 1].page {
      if InWal(wal[..i], page) {
        var j :| 0 <= j < i && wal[..i][j].page == page;
        assert wal[..i - 1][j].page == page;
      }
      assert InWal(wal[..i - 1], page) || !InWal(wal, page);
    }
  }

  /** The i-th copy writes the page of the i-th frame, as the whole database has it. */
  lemma FullCopyLast(main: Pages, wal: seq<Frame>, i: nat)
    requires 0 < i <= |wal|
    ensures var page, full := wal[i - 1].page, Replay(main, wal);
      page in full && CopyAll(main, wal, FullCopy(wal)[..i])
                      == CopyAll(main, wal, FullCopy(wal)[..i - 1])[page := full[page]]
  {
    var before := CopyAll(main, wal, FullCopy(wal)[..i - 1]);
    CopyAllKeepsReplay(main, wal, FullCopy(wal)[..i - 1]);
    assert FullCopy(wal)[..i][..i - 1] == FullCopy(wal)[..i - 1];
    assert wal[..|wal|] == wal && InWal(wal, wal[i - 1].page);
    ReplayAt(before, wal, wal[i - 1].page);
  }

  /** After a complete checkpoint the main file alone is the whole database. */
  lemma FullCopyReplays(main: Pages, wal: seq<Frame>)
    ensures CopyAll(main, wal, FullCopy(wal)) == Replay(main, wal)
  {
    FullCopyPrefix(main, wal, |wal|);
    assert FullCopy(wal)[..|wal|] == FullCopy(wal) && wal[..|wal|] == wal;
    var m, full := CopyAll(main, wal, FullCopy(wal)), Replay(main, wal);
    forall page ensures if page in full then page in m && m[page] == full[page] else page !in m {
      assert InWal(wal[..|wal|], page) || !InWal(wal, page);
    }
    assert m.Keys == full.Keys;
  }
}
