/** The demultiplexer's decision about one line, in the bytes of the line alone. */
module ReplyLines {
  import opened Bytes
  import opened Arrays
  import opened Demux

  /** The six ASCII blanks: tab, line feed, vertical tab, form feed, carriage return and space. */
  predicate Blank(b: byte) {
    b == 9 || b == 10 || b == 11 || b == 12 || b == 13 || b == 32
  }

  predicate Blanks(s: seq<byte>) {
    forall i :: 0 <= i < |s| ==> Blank(s[i])
  }

  /** Neither end is a blank. */
  predicate Trimmed(core: seq<byte>) {
    core != [] ==> !Blank(core[0]) && !Blank(core[|core| - 1])
  }

  predicate StartsOta(core: seq<byte>) {
    |core| >= 5 && core[..5] == [0x2B, 0x4F, 0x54, 0x41, 0x3A]
  }

  predicate Claimed(core: seq<byte>) {
    StartsOta(core) || core == [0x4F, 0x4B]
  }

  predicate StartsMagic(line: seq<byte>) {
    |line| >= 4 && line[..4] == [0x53, 0x44, 0x46, 0x31]
  }

  // ---- Stripping ----

  lemma {:induction false} StripFront(front: seq<byte>, core: seq<byte>)
    requires Blanks(front) && (core != [] ==> !Blank(core[0]))
    ensures StripLeft(front + core) == core
  {
    if front == [] {
      assert front + core == core;
    } else {
      assert Blank(front[0]);
      assert (front + core)[1..] == front[1..] + core;
      StripFront(front[1..], core);
    }
  }

  lemma {:induction false} StripBack(core: seq<byte>, back: seq<byte>)
    requires Blanks(back) && (core != [] ==> !Blank(core[|core| - 1]))
    ensures StripRight(core + back) == core
    decreases |back|
  {
    if back == [] {
      assert core + back == core;
    } else {
      var n := |back| - 1;
      assert Blank(back[n]);
      assert (core + back)[..|core| + n] == core + back[..n];
      StripBack(core, back[..n]);
    }
  }

  /** Stripping takes off the blanks at both ends and nothing else. */
  lemma StripIs(front: seq<byte>, core: seq<byte>, back: seq<byte>)
    requires Blanks(front) && Trimmed(core) && Blanks(back)
    ensures Strip(front + core + back) == core
  {
    assert front + core + back == front + (core + back);
    if core == [] {
      StripFront(front + back, []);
      assert front + core + back == (front + back) + [];
    } else {
      StripFront(front, core + back);
      StripBack(core, back);
    }
  }

  /** Every line has such a core. */
  lemma CoreOf(line: seq<byte>) returns (front: seq<byte>, core: seq<byte>, back: seq<byte>)
    ensures line == front + core + back && Blanks(front) && Trimmed(core) && Blanks(back)
  {
    front, back := StripSplits(line);
    core := Strip(line);
    hide Strip;
  }

  // ---- The front of the stream ----

  /**
   * What is taken off the front, from its bytes: behind the magic one whole frame of sound sizes, one
   * byte if the sizes are unsound, or nothing yet; elsewhere one line with its newline, or nothing yet.
   */
  lemma FrontTaken(b: seq<byte>)
    requires b != []
    ensures StartsMagic(b) ==>
              Scan(b) == if |b| < 12 then Hold
                         else if Le(b[8..10]) < 28 || Le(b[8..10]) > 256 || Le(b[10..12]) > 3577 then Take(1, false)
                         else if |b| < Le(b[8..10]) + Le(b[10..12]) + 4 then Hold
                         else Take(Le(b[8..10]) + Le(b[10..12]) + 4, false)
    ensures !StartsMagic(b) && 10 !in b ==> Scan(b) == Hold
    ensures !StartsMagic(b) && 10 in b ==> Scan(b).Take? && Scan(b).text && 1 <= Scan(b).n <= |b|
                                           && b[Scan(b).n - 1] == 10 && 10 !in b[..Scan(b).n - 1]
  {
    hide Le;
  }

  /** What is held back is released exactly when it is longer than a line or a frame may be. */
  lemma ReleasedIff(rest: seq<byte>, maxLine: nat)
    ensures Releases(rest, maxLine) <==>
              if StartsMagic(rest) || rest <= [0x53, 0x44, 0x46] then |rest| > 3901 else |rest| > maxLine
  {}

  // ---- One line ----

  lemma LineSplits(line: seq<byte>, maxLine: nat)
    requires 10 !in line && !StartsMagic(line) && |line| <= maxLine
    ensures var b := line + [10];
            && Split(b) == Splitting([SegmentOf(b, true)], [])
            && LinesFit(b, maxLine)
  {
    hide IsReply, SegmentOf;
    var b := line + [10];
    LineEndIs(b, 0, |line|);
    NotAFrame(line);
    assert Scan(b) == Take(|b|, true);
    assert b[..|b|] == b && b[|b|..] == [];
    SplitStep(b);
    SplitHold([]);
    FitsNothing(maxLine);
    hide Split, Scan;
    assert [SegmentOf(b, true)] + [] == [SegmentOf(b, true)];
  }

  lemma NotAFrame(line: seq<byte>)
    requires 10 !in line && !StartsMagic(line)
    ensures !StartsFrame(line + [10])
  {
    var b := line + [10];
    if |line| >= 4 {
      assert b[..4] == line[..4];
    } else if |b| == 4 {
      assert b[..4][3] == 10;
    }
  }

  /**
   * One line with any blanks around its core, cut into chunks in any way: the uploader gets the core,
   * and the parser nothing, if and only if the core starts with `+OTA:` or is `OK`; any other line is
   * passed to the parser byte for byte.
   */
  lemma OneLine(front: seq<byte>, core: seq<byte>, back: seq<byte>, chunks: seq<seq<byte>>, maxLine: nat)
    requires Blanks(front) && Trimmed(core) && Blanks(back)
    requires var line := front + core + back;
             && 10 !in line && !StartsMagic(line) && |line| <= maxLine
             && Flatten(chunks) == line + [10]
    ensures var t := FeedAll([], chunks, maxLine);
            && t.pending == []
            && t.lines == (if Claimed(core) then [core] else [])
            && Flatten(t.passed) == (if Claimed(core) then [] else front + core + back + [10])
  {
    hide FeedAll, Split, Scan, Strip, LinesFit;
    var line := front + core + back;
    var b := line + [10];
    LineSplits(line, maxLine);
    FitsNothing(maxLine);
    assert [] + Flatten(chunks) == b;
    ChunkIndependence([], chunks, maxLine);
    StripIs(front, core, back);
    assert b[..|b| - 1] == line;
    Decided(core);
    assert [SegmentOf(b, true)] == [SegmentOf(b, true)] + [];
    PassedCons(SegmentOf(b, true), []);
    NoSegments();
  }

  lemma Decided(core: seq<byte>)
    ensures Claimed(core) <==> OTA_PREFIX <= core || core == OK_LINE
  {}

  /** `+OTA:`, any text that does not end in a blank, carriage return and line feed. */
  lemma OtaLineClaimed(x: seq<byte>, chunks: seq<seq<byte>>, maxLine: nat)
    requires 10 !in x && (x != [] ==> !Blank(x[|x| - 1])) && |x| + 6 <= maxLine
    requires Flatten(chunks) == [0x2B, 0x4F, 0x54, 0x41, 0x3A] + x + [13, 10]
    ensures var t := FeedAll([], chunks, maxLine);
            t.lines == [[0x2B, 0x4F, 0x54, 0x41, 0x3A] + x] && Flatten(t.passed) == [] && t.pending == []
  {
    hide FeedAll;
    var core: seq<byte> := [0x2B, 0x4F, 0x54, 0x41, 0x3A] + x;
    var line := [] + core + [13];
    assert core[..5] == [0x2B, 0x4F, 0x54, 0x41, 0x3A] && line[0] == 0x2B;
    assert line[..4][0] == line[0];
    assert core + [13, 10] == line + [10];
    OneLine([], core, [13], chunks, maxLine);
  }

  /** `OK`, carriage return and line feed, as the device ends its answers. */
  lemma OkLineClaimed(chunks: seq<seq<byte>>, maxLine: nat)
    requires Flatten(chunks) == [0x4F, 0x4B, 13, 10] && maxLine >= 3
    ensures var t := FeedAll([], chunks, maxLine);
            t.lines == [[0x4F, 0x4B]] && Flatten(t.passed) == [] && t.pending == []
  {
    hide FeedAll;
    var core: seq<byte> := [0x4F, 0x4B];
    assert [] + core + [13] == [0x4F, 0x4B, 13];
    assert [0x4F, 0x4B, 13, 10] == [] + core + [13] + [10];
    OneLine([], core, [13], chunks, maxLine);
  }
}
