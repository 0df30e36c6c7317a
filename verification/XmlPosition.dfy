/** Row and column tracking: TiXmlParsingData::Stamp moves a cursor forward from where it stood last. */
module XmlPosition {
  import opened CStrings
  import opened Utf8
  import opened XmlBytes

  datatype Place = Place(row: int, col: int, at: nat)

  /** The loop of Stamp arrives, or stops making progress. */
  datatype Walked = Arrived(place: Place) | Stuck

  /** C division, which truncates. */
  function Quotient(a: int, b: int): int
    requires b > 0
  {
    if a >= 0 then a / b else -((-a) / b)
  }

  function NextTab(col: int, tabsize: int): int
    requires tabsize > 0
  {
    (Quotient(col, tabsize) + 1) * tabsize
  }

  /** One turn of the loop, over one line end, one tab or one character. A lead byte 0xEF with fewer than two
      bytes after it is where it does not move. */
  function Turn(text: string, p: Place, tabsize: int, encoding: Encoding): (q: Place)
    requires tabsize > 0 && p.at < |text|
    ensures q == p || q.at > p.at
    ensures q == p <==> encoding.EncodingUtf8? && text[p.at] == 0xEF as char && p.at + 3 > |text|
  {
    var c := text[p.at];
    if c == '\r' then Place(p.row + 1, 0, p.at + if At(text, p.at + 1) == '\n' then 2 else 1)
    else if c == '\n' then Place(p.row + 1, 0, p.at + if At(text, p.at + 1) == '\r' then 2 else 1)
    else if c == '\t' then Place(p.row, NextTab(p.col, tabsize), p.at + 1)
    else if encoding.EncodingLegacy? then Place(p.row, p.col + 1, p.at + 1)
    else if c == 0xEF as char then
      if p.at + 3 > |text| then p
      else Place(p.row, if ZeroWidth(text[p.at..]) then p.col else p.col + 1, p.at + 3)
    else Place(p.row, p.col + 1, p.at + LeadLength(c))
  }

  function Walk(text: string, p: Place, now: nat, tabsize: int, encoding: Encoding): Walked
    requires tabsize > 0 && now <= |text|
    decreases now - p.at
  {
    if p.at >= now then Arrived(p)
    else
      var q := Turn(text, p, tabsize, encoding);
      if q == p then Stuck else Walk(text, q, now, tabsize, encoding)
  }

  class ParsingData {
    var row: int
    var col: int
    var stamp: nat
    const tabsize: int

    constructor (start: nat, tabsize: int, row: int, col: int)
      ensures this.tabsize == tabsize && Cursor() == Place(row, col, start)
    {
      this.tabsize, this.row, this.col, stamp := tabsize, row, col, start;
    }

    function Cursor(): Place
      reads this
    {
      Place(row, col, stamp)
    }

    method Stamp(text: string, now: nat, encoding: Encoding)
      requires NulFree(text) && now <= |text|
      requires tabsize > 0 ==> Walk(text, Cursor(), now, tabsize, encoding).Arrived?
      modifies this
      ensures Cursor() == if tabsize < 1 then old(Cursor()) else Walk(text, old(Cursor()), now, tabsize, encoding).place
    {
      if tabsize < 1 {
        return;
      }
      var r, c, p := row, col, stamp;
      while p < now
        invariant Walk(text, Place(r, c, p), now, tabsize, encoding)
                  == Walk(text, old(Cursor()), now, tabsize, encoding)
        decreases now - p
      {
        ghost var q := Turn(text, Place(r, c, p), tabsize, encoding);
        if text[p] == '\r' {
          r, c, p := r + 1, 0, p + 1;
          if At(text, p) == '\n' {
            p := p + 1;
          }
        } else if text[p] == '\n' {
          r, c, p := r + 1, 0, p + 1;
          if At(text, p) == '\r' {
            p := p + 1;
          }
        } else if text[p] == '\t' {
          c, p := NextTab(c, tabsize), p + 1;
        } else if text[p] == 0xEF as char && encoding.EncodingUtf8? {
          if At(text, p + 1) != '\0' && At(text, p + 2) != '\0' {
            if !ZeroWidth(text[p..]) {
              c := c + 1;
            }
            p := p + 3;
          }
        } else {
          c, p := c + 1, p + StepLength(text[p..], encoding);
        }
        assert q == Place(r, c, p);
      }
      row, col, stamp := r, c, p;
    }
  }

  // ----- in steps or at once -----

  /** Going to m and then on to n is going to n: stopping on the way leaves no trace, even inside a line end
      or a character. */
  lemma {:induction false} StampSplit(text: string, p: Place, m: nat, n: nat, tabsize: int, encoding: Encoding)
    requires tabsize > 0 && m <= n <= |text|
    ensures match Walk(text, p, m, tabsize, encoding) {
              case Arrived(q) => Walk(text, q, n, tabsize, encoding) == Walk(text, p, n, tabsize, encoding)
              case Stuck => Walk(text, p, n, tabsize, encoding) == Stuck
            }
    decreases m - p.at
  {
    if p.at < m {
      var q := Turn(text, p, tabsize, encoding);
      if q != p {
        StampSplit(text, q, m, n, tabsize, encoding);
      }
    }
  }

  /** Counted in steps of the byte table from the front of s, a character begins at k. */
  predicate Boundary(s: string, k: nat)
    requires k <= |s|
    decreases k
  {
    k == 0 || var n := StepLength(s, EncodingUtf8); n <= k && Boundary(s[n..], k - n)
  }

  /** Counted from `at`, a character begins at i with a byte 0xEF that is one of the last two of the text. */
  predicate CutShort(text: string, at: nat, i: nat)
    requires at <= i < |text|
  {
    text[i] == 0xEF as char && i + 3 > |text| && Boundary(text[at..], i - at)
  }

  /** The loop runs forever exactly when there is such a byte before `now`. Row, column and tab size do not matter. */
  lemma {:induction false} StuckExactly(text: string, p: Place, now: nat, tabsize: int, encoding: Encoding)
    requires tabsize > 0 && now <= |text|
    ensures Walk(text, p, now, tabsize, encoding) == Stuck <==>
              encoding.EncodingUtf8? && exists i | p.at <= i < now :: CutShort(text, p.at, i)
    decreases now - p.at
  {
    if p.at < now {
      var q := Turn(text, p, tabsize, encoding);
      if q == p {
        assert CutShort(text, p.at, p.at);
      } else {
        StuckExactly(text, q, now, tabsize, encoding);
        if encoding.EncodingUtf8? {
          forall i | p.at <= i < now
            ensures CutShort(text, p.at, i) == (i >= q.at && CutShort(text, q.at, i))
          {
            CutShortLater(text, p, i, tabsize);
          }
        }
      }
    }
  }

  /** A turn takes one step of the table, or two at the pairs CR LF and LF CR. */
  lemma CutShortLater(text: string, p: Place, i: nat, tabsize: int)
    requires tabsize > 0 && p.at <= i < |text| && Turn(text, p, tabsize, EncodingUtf8) != p
    ensures var to := Turn(text, p, tabsize, EncodingUtf8).at;
            CutShort(text, p.at, i) == (i >= to && CutShort(text, to, i))
  {
    var to := Turn(text, p, tabsize, EncodingUtf8).at;
    TurnLength(text, p, tabsize);
    BoundaryStep(text, p.at, i);
    if to == p.at + 2 && i > p.at {
      BoundaryStep(text, p.at + 1, i);
    }
  }

  lemma TurnLength(text: string, p: Place, tabsize: int)
    requires tabsize > 0 && p.at < |text| && Turn(text, p, tabsize, EncodingUtf8) != p
    ensures var to := Turn(text, p, tabsize, EncodingUtf8).at;
            || to == p.at + LeadLength(text[p.at])
            || (to == p.at + 2 && to <= |text| && LeadLength(text[p.at]) == 1
                && LeadLength(text[p.at + 1]) == 1 && text[p.at + 1] != 0xEF as char)
    ensures text[p.at] == 0xEF as char ==> p.at + 3 <= |text|
  {
  }

  lemma BoundaryStep(text: string, at: nat, i: nat)
    requires at <= i < |text|
    ensures var n := LeadLength(text[at]);
            Boundary(text[at..], i - at) == (i == at || (i >= at + n && Boundary(text[at + n..], i - (at + n))))
  {
    var n := LeadLength(text[at]);
    assert at + n <= |text| ==> text[at..][n..] == text[at + n..];
  }

  /** A text the parser can be given: a start tag whose attribute would begin with 0xEF. Stamped at the '>', the loop
      never ends, wherever the cursor stood and whatever the tab size. */
  lemma EndlessLoop(row: int, col: int, tabsize: int)
    requires tabsize > 0
    ensures var text := "<a " + [0xEF as char] + ">";
            NulFree(text) && text[4] == '>' && Walk(text, Place(row, col, 0), 4, tabsize, EncodingUtf8) == Stuck
  {
    var text := "<a " + [0xEF as char] + ">";
    StuckExactly(text, Place(row, col, 0), 4, tabsize, EncodingUtf8);
    assert text[0..] == text && text[3] == 0xEF as char;
    assert text[1..][1..] == text[2..] && text[2..][1..] == text[3..];
    assert Boundary(text[3..], 0) && Boundary(text[2..], 1) && Boundary(text[1..], 2) && CutShort(text, 0, 3);
  }

  /** So it ends on every legacy text and on every text of whole characters. */
  lemma {:induction false} CleanArrives(text: string, p: Place, now: nat, tabsize: int, encoding: Encoding)
    requires tabsize > 0 && p.at <= now <= |text| && Clean(text[p.at..], encoding)
    ensures Walk(text, p, now, tabsize, encoding).Arrived?
    decreases now - p.at
  {
    if p.at < now {
      var q := Turn(text, p, tabsize, encoding);
      CleanTurn(text, p, tabsize, encoding);
      if q.at < now {
        CleanArrives(text, q, now, tabsize, encoding);
      }
    }
  }

  lemma CleanTurn(text: string, p: Place, tabsize: int, encoding: Encoding)
    requires tabsize > 0 && p.at < |text| && Clean(text[p.at..], encoding)
    ensures var q := Turn(text, p, tabsize, encoding); p.at < q.at <= |text| && Clean(text[q.at..], encoding)
  {
    var n := StepLength(text[p.at..], encoding);
    assert text[p.at..][n..] == text[p.at + n..];
    var q := Turn(text, p, tabsize, encoding);
    if q.at != p.at + n {
      assert text[p.at + 1..][1..] == text[q.at..];
    }
  }

  // ----- what the numbers mean -----

  /** The same walk told in code points: a line end (LF, CR, CR LF or LF CR) starts a row, a tab goes to its stop,
      and the three zero-width points do not count. */
  function PlaceAfter(points: seq<nat>, row: int, col: int, tabsize: int): (int, int)
    requires tabsize > 0
    decreases |points|
  {
    if points == [] then (row, col)
    else if points[0] == 13 || points[0] == 10 then
      PlaceAfter(points[if Paired(points) then 2 else 1..], row + 1, 0, tabsize)
    else PlaceAfter(points[1..], row, NewCol(points[0], col, tabsize), tabsize)
  }

  predicate Paired(points: seq<nat>) {
    |points| > 1 && ((points[0] == 13 && points[1] == 10) || (points[0] == 10 && points[1] == 13))
  }

  function NewCol(c: nat, col: int, tabsize: int): int
    requires tabsize > 0
  {
    if c == 9 then NextTab(col, tabsize) else if c in {0xFEFF, 0xFFFE, 0xFFFF} then col else col + 1
  }

  /** In well-formed UTF-8 the cursor counts code points, not bytes. */
  lemma {:induction false} WalkCountsCodePoints(text: string, p: Place, points: seq<nat>, tabsize: int)
    requires tabsize > 0 && p.at <= |text| && Spells(text[p.at..], points)
    ensures var (row, col) := PlaceAfter(points, p.row, p.col, tabsize);
            Walk(text, p, |text|, tabsize, EncodingUtf8) == Arrived(Place(row, col, |text|))
    decreases |points|
  {
    if points != [] {
      var q := Turn(text, p, tabsize, EncodingUtf8);
      if points[0] == 13 || points[0] == 10 {
        LineEndTurn(text, p, points, tabsize);
        WalkCountsCodePoints(text, q, points[if Paired(points) then 2 else 1..], tabsize);
      } else {
        PointTurn(text, p, points, tabsize);
        WalkCountsCodePoints(text, q, points[1..], tabsize);
      }
    }
  }

  lemma LineEndTurn(text: string, p: Place, points: seq<nat>, tabsize: int)
    requires tabsize > 0 && p.at < |text| && points != [] && Spells(text[p.at..], points) && points[0] in {10, 13}
    ensures var q, n := Turn(text, p, tabsize, EncodingUtf8), if Paired(points) then 2 else 1;
            q == Place(p.row + 1, 0, p.at + n) && q.at <= |text| && Spells(text[q.at..], points[n..])
  {
    var s := text[p.at..];
    LineEndStep(s, points);
    assert s[1..] == text[p.at + 1..];
    assert At(text, p.at + 1) == At(s, 1);
    if Paired(points) {
      assert s[2..] == text[p.at + 2..] && points[1..][1..] == points[2..];
    }
  }

  lemma PointTurn(text: string, p: Place, points: seq<nat>, tabsize: int)
    requires tabsize > 0 && p.at < |text| && points != [] && Spells(text[p.at..], points) && points[0] !in {10, 13}
    ensures var q := Turn(text, p, tabsize, EncodingUtf8);
            && p.at < q.at <= |text| && q == Place(p.row, NewCol(points[0], p.col, tabsize), q.at)
            && Spells(text[q.at..], points[1..])
  {
    var s := text[p.at..];
    SpelledStep(s);
    WidthOf(s);
    AsciiPoint(s);
    assert s[Decode(s).size..] == text[p.at + Decode(s).size..];
  }

  lemma AsciiPoint(s: string)
    requires Decode(s).Scalar?
    ensures s[0] as int < 0x80 ==> Decode(s) == Scalar(s[0] as int, 1)
    ensures Decode(s).c < 0x80 ==> s[0] as int == Decode(s).c
  {
  }

  lemma LineEndStep(s: string, points: seq<nat>)
    requires points != [] && Spells(s, points) && points[0] in {10, 13}
    ensures s[0] as int == points[0] && Decode(s).size == 1
    ensures Paired(points) <==> |s| > 1 && s[1] as int == 23 - points[0]
    ensures Paired(points) ==> Spells(s[2..], points[1..][1..])
  {
    AsciiPoint(s);
    if |points| > 1 {
      AsciiPoint(s[1..]);
      if Paired(points) {
        assert s[1..][1..] == s[2..];
      }
    }
  }

  lemma WidthOf(s: string)
    requires Decode(s).Scalar?
    ensures ZeroWidth(s) <==> Decode(s).c in {0xFEFF, 0xFFFE, 0xFFFF}
  {
    var d := Decode(s);
    if d.c in {0xFEFF, 0xFFFE, 0xFFFF} {
      EncodeDecode(s);
      assert forall i | 0 <= i < 3 :: s[i] == s[..3][i];
    }
  }

  function Count(points: seq<nat>, c: nat): nat {
    if points == [] then 0 else (if points[0] == c then 1 else 0) + Count(points[1..], c)
  }

  /** The first multiple of tabsize from c on. */
  function UpTo(c: nat, tabsize: int): (stop: nat)
    requires tabsize > 0
    ensures c <= stop < c + tabsize && stop % tabsize == 0
    decreases tabsize - 1 - (c + tabsize - 1) % tabsize
  {
    if c % tabsize == 0 then c
    else
      NextResidue(c, tabsize);
      UpTo(c + 1, tabsize)
  }

  lemma NextResidue(c: nat, m: int)
    requires m > 0 && c % m != 0
    ensures (c + m) % m == c % m && (c + m - 1) % m == c % m - 1
  {
    var q := c / m;
    assert c == q * m + c % m;
    Residue(c + m, q + 1, c % m, m);
    Residue(c + m - 1, q + 1, c % m - 1, m);
  }

  lemma Residue(x: int, q: int, r: int, m: int)
    requires m > 0 && 0 <= r < m && x == q * m + r
    ensures x % m == r && x / m == q
  {
    var d := x / m - q;
    assert d * m == r - x % m;
    assert d > 0 ==> d * m >= m;
    assert d < 0 ==> d * m + m <= 0;
  }

  /** From a column on the page a tab goes to the next stop. */
  lemma NextTabIs(c: nat, tabsize: int)
    requires tabsize > 0
    ensures NextTab(c, tabsize) == UpTo(c + 1, tabsize)
  {
    var stop, q := UpTo(c + 1, tabsize), c / tabsize;
    assert c == q * tabsize + c % tabsize;
    assert (q + 1) * tabsize == q * tabsize + tabsize;
    OneMultiple(stop, q + 1, tabsize);
  }

  /** Only one multiple of m is this close. */
  lemma OneMultiple(x: int, k: int, m: int)
    requires m > 0 && x % m == 0 && -m < x - k * m < m
    ensures x == k * m
  {
    var d := x / m - k;
    assert x == x / m * m;
    assert d * m == x - k * m;
    assert d > 0 ==> d * m >= m;
    assert d < 0 ==> d * m <= -m;
  }

  /** Stepping over a tab leaves the row and goes to the next multiple of the tab size, whatever the encoding. */
  lemma TabGoesToItsStop(text: string, p: Place, tabsize: int, encoding: Encoding)
    requires tabsize > 0 && p.at < |text| && text[p.at] == '\t' && p.col >= 0
    ensures var w := Walk(text, p, p.at + 1, tabsize, encoding);
            && w.Arrived? && w.place.row == p.row && w.place.at == p.at + 1
            && w.place.col % tabsize == 0 && p.col < w.place.col <= p.col + tabsize
  {
    NextTabIs(p.col, tabsize);
    var q := Turn(text, p, tabsize, encoding);
    assert Walk(text, q, p.at + 1, tabsize, encoding) == Arrived(q);
  }

  /** The column of a text editor at the end of a line: tabs go to their stops, the three points without width do not
      count, all others are one wide. */
  function Column(points: seq<nat>, col: nat, tabsize: int): nat
    requires tabsize > 0
    decreases |points|
  {
    if points == [] then col
    else
      var c := points[0];
      var next := if c == 9 then UpTo(col + 1, tabsize) else if c in {0xFEFF, 0xFFFE, 0xFFFF} then col else col + 1;
      Column(points[1..], next, tabsize)
  }

  /** In a text that LoadFile has normalised the row is the number of line feeds so far, and on one line the column is
      that of a text editor. Without tabs it is the number of visible points. */
  lemma {:induction false} RowsAreLineFeeds(points: seq<nat>, row: int, col: int, tabsize: int)
    requires tabsize > 0 && 13 !in points
    ensures PlaceAfter(points, row, col, tabsize).0 == row + Count(points, 10)
    ensures 10 !in points && col >= 0 ==> PlaceAfter(points, row, col, tabsize).1 == Column(points, col, tabsize)
    ensures 10 !in points && 9 !in points ==>
              PlaceAfter(points, row, col, tabsize).1
              == col + |points| - Count(points, 0xFEFF) - Count(points, 0xFFFE) - Count(points, 0xFFFF)
  {
    if points != [] {
      var more := points[1..];
      assert forall c | c in more :: c in points;
      if col >= 0 {
        NextTabIs(col, tabsize);
      }
      RowsAreLineFeeds(more, if points[0] == 10 then row + 1 else row,
                       if points[0] == 10 then 0 else NewCol(points[0], col, tabsize), tabsize);
    }
  }

  /** Only the line the cursor stands on matters for its column. */
  lemma {:induction false} LastLineDecides(before: seq<nat>, line: seq<nat>, row: int, col: int, tabsize: int)
    requires tabsize > 0 && 13 !in before && 13 !in line && 10 !in line
    ensures PlaceAfter(before + [10] + line, row, col, tabsize)
         == (row + Count(before, 10) + 1, Column(line, 0, tabsize))
    decreases |before|
  {
    var all := before + [10] + line;
    if before == [] {
      assert all == [10] + line && ([10] + line)[1..] == line;
      RowsAreLineFeeds(line, row + 1, 0, tabsize);
      NoneOf(line, 10);
    } else {
      assert all[0] == before[0] && all[1..] == before[1..] + [10] + line;
      assert forall c | c in before[1..] :: c in before;
      assert !Paired(all);
      LastLineDecides(before[1..], line, if before[0] == 10 then row + 1 else row,
                      if before[0] == 10 then 0 else NewCol(before[0], col, tabsize), tabsize);
    }
  }

  lemma {:induction false} NoneOf(points: seq<nat>, c: nat)
    requires c !in points
    ensures Count(points, c) == 0
  {
    if points != [] {
      NoneOf(points[1..], c);
    }
  }

  /** The bytes as points of their own. */
  function Bytes(text: string): seq<nat> {
    seq(|text|, i requires 0 <= i < |text| => text[i] as nat)
  }

  /** In legacy encoding the cursor counts bytes. */
  lemma {:induction false} WalkCountsBytes(text: string, p: Place, tabsize: int)
    requires tabsize > 0 && p.at <= |text| && forall i | 0 <= i < |text| :: text[i] as int < 0x100
    ensures var (row, col) := PlaceAfter(Bytes(text[p.at..]), p.row, p.col, tabsize);
            Walk(text, p, |text|, tabsize, EncodingLegacy) == Arrived(Place(row, col, |text|))
    decreases |text| - p.at
  {
    var points := Bytes(text[p.at..]);
    if points != [] {
      var q := Turn(text, p, tabsize, EncodingLegacy);
      assert points[0] == text[p.at] as nat;
      assert |points| > 1 ==> points[1] == At(text, p.at + 1) as nat;
      assert points[q.at - p.at..] == Bytes(text[q.at..]);
      WalkCountsBytes(text, q, tabsize);
    }
  }

  /** In both encodings: walked to its end, a text without CR leaves the row advanced by its line feeds. */
  lemma WalkCountsLineFeeds(text: string, p: Place, points: seq<nat>, tabsize: int, encoding: Encoding)
    requires tabsize > 0 && p.at <= |text| && 13 !in points
    requires if encoding.EncodingUtf8? then Spells(text[p.at..], points)
             else points == Bytes(text[p.at..]) && forall i | 0 <= i < |text| :: text[i] as int < 0x100
    ensures var w := Walk(text, p, |text|, tabsize, encoding);
            w.Arrived? && w.place.at == |text| && w.place.row == p.row + Count(points, 10)
  {
    if encoding.EncodingUtf8? {
      WalkCountsCodePoints(text, p, points, tabsize);
    } else {
      WalkCountsBytes(text, p, tabsize);
    }
    RowsAreLineFeeds(points, p.row, p.col, tabsize);
  }
}
