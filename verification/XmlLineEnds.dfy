/** Line ends as TiXmlDocument::LoadFile leaves them: section 2.11 of XML 1.0, by a loop that copies segments. */
module XmlLineEnds {
  import opened CStrings

  /** Every CR LF and every other CR becomes one LF. */
  function Normal(s: string): string {
    if s == "" then ""
    else if s[0] != '\r' then [s[0]] + Normal(s[1..])
    else "\n" + Normal(AfterCr(s))
  }

  function AfterCr(s: string): string
    requires s != ""
  {
    if |s| > 1 && s[1] == '\n' then s[2..] else s[1..]
  }

  // ----- what it means -----

  /** The lines of a text whose line ends may be LF, CR or CR LF. */
  function Lines(s: string): (ls: seq<string>)
    ensures ls != []
  {
    if s == "" then [""]
    else if "\r\n" <= s then [""] + Lines(s[2..])
    else if s[0] == '\r' || s[0] == '\n' then [""] + Lines(s[1..])
    else var ls := Lines(s[1..]); [[s[0]] + ls[0]] + ls[1..]
  }

  function Join(ls: seq<string>): string
    requires ls != []
  {
    if |ls| == 1 then ls[0] else ls[0] + "\n" + Join(ls[1..])
  }

  /** The result is the same lines with one LF between them. */
  lemma {:induction false} NormalIsJoinedLines(s: string)
    ensures Normal(s) == Join(Lines(s))
    ensures forall l | l in Lines(s) :: '\r' !in l && '\n' !in l
    decreases |s|
  {
    if s != "" {
      LineBreak(s);
      if s[0] == '\r' || s[0] == '\n' {
        var t := if s[0] == '\r' then AfterCr(s) else s[1..];
        NormalIsJoinedLines(t);
        assert ([""] + Lines(t))[1..] == Lines(t);
      } else {
        NormalIsJoinedLines(s[1..]);
        JoinFirst(s[0], Lines(s[1..]));
      }
    }
  }

  lemma LineBreak(s: string)
    requires s != ""
    ensures "\r\n" <= s <==> |s| > 1 && s[0] == '\r' && s[1] == '\n'
  {
    if |s| > 1 {
      assert s[..2] == [s[0], s[1]];
    }
  }

  lemma JoinFirst(c: char, ls: seq<string>)
    requires ls != []
    ensures Join([[c] + ls[0]] + ls[1..]) == [c] + Join(ls)
  {
    var more := [[c] + ls[0]] + ls[1..];
    assert more[1..] == ls[1..];
    if |ls| > 1 {
      assert [c] + ls[0] + "\n" + Join(ls[1..]) == [c] + (ls[0] + "\n" + Join(ls[1..]));
    }
  }

  /** It has no CR; a text is left alone exactly when it has none; so normalising again changes nothing. */
  lemma {:induction false} NormalHasNoCr(s: string)
    ensures '\r' !in Normal(s)
    ensures Normal(s) == s <==> '\r' !in s
    ensures Normal(Normal(s)) == Normal(s)
    decreases |s|
  {
    NoCrIn(s);
    if '\r' !in s {
      FixedWithoutCr(s);
    }
    FixedWithoutCr(Normal(s));
  }

  lemma {:induction false} NoCrIn(s: string)
    ensures '\r' !in Normal(s)
    decreases |s|
  {
    if s != "" {
      NoCrIn(if s[0] == '\r' then AfterCr(s) else s[1..]);
    }
  }

  lemma {:induction false} FixedWithoutCr(s: string)
    requires '\r' !in s
    ensures Normal(s) == s
  {
    if s != "" {
      assert s[0] != '\r' && forall c | c in s[1..] :: c in s;
      FixedWithoutCr(s[1..]);
    }
  }

  // ----- the loop -----

  /** A file as the C string its buffer becomes: what comes before the first NUL. */
  function UpToNul(file: string): string {
    if file == "" || file[0] == '\0' then "" else [file[0]] + UpToNul(file[1..])
  }

  lemma {:induction false} UpToNulIsPrefix(file: string)
    ensures NulFree(UpToNul(file)) && UpToNul(file) <= file
    ensures |UpToNul(file)| == |file| || file[|UpToNul(file)|] == '\0'
  {
    if file != "" && file[0] != '\0' {
      UpToNulIsPrefix(file[1..]);
    }
  }

  /** The buffer after fread and its terminating NUL. */
  method Load(file: string) returns (data: string)
    ensures data == Normal(UpToNul(file))
  {
    ghost var s := UpToNul(file);
    UpToNulIsPrefix(file);
    data := "";
    var p: nat, lastPos: nat := 0, 0;
    assert s[0..] == s;
    while At(file, p) != '\0'
      invariant Copied(s, data, lastPos, p)
      decreases |s| - p
    {
      data, lastPos, p := LoadTurn(file, s, data, lastPos, p);
    }
    assert p == |s| && s[p..] == "" && s[lastPos..p] + "" == s[lastPos..p];
    data := Segment(file, s, data, lastPos, p);
  }

  method LoadTurn(file: string, ghost s: string, data0: string, lastPos0: nat, p0: nat)
    returns (data: string, lastPos: nat, p: nat)
    requires s <= file && Copied(s, data0, lastPos0, p0) && p0 < |s| && At(file, |s|) == '\0' && NulFree(s)
    ensures Copied(s, data, lastPos, p) && p0 < p
  {
    data, lastPos, p := data0, lastPos0, p0;
    if file[p] == '\n' {
      AdvanceLf(s, data, lastPos, p);
      data := Segment(file, s, data, lastPos, p + 1);
      p := p + 1;
      lastPos := p;
    } else if file[p] == '\r' {
      AdvanceCr(s, data, lastPos, p);
      data := Segment(file, s, data, lastPos, p);
      data := data + "\n";
      p := p + (if At(file, p + 1) == '\n' then 2 else 1);
      lastPos := p;
    } else {
      AdvancePlain(s, data, lastPos, p);
      p := p + 1;
    }
  }

  /** Append what lies between the two positions, if anything does. */
  method Segment(file: string, ghost s: string, data0: string, i: nat, p: nat) returns (data: string)
    requires s <= file && i <= p <= |s|
    ensures data == data0 + s[i..p]
  {
    assert file[i..p] == s[i..p];
    data := if p > i then data0 + file[i..p] else data0;
  }

  /** The text up to i is in `data` and the segment s[i..p] still has to go there as it is. */
  ghost predicate Copied(s: string, data: string, i: nat, p: nat) {
    i <= p <= |s| && '\r' !in s[i..p] && data + (s[i..p] + Normal(s[p..])) == Normal(s)
  }

  lemma AdvancePlain(s: string, data: string, i: nat, p: nat)
    requires Copied(s, data, i, p) && p < |s| && s[p] != '\r'
    ensures Copied(s, data, i, p + 1)
  {
    assert s[p..][1..] == s[p + 1..] && s[i..p + 1] == s[i..p] + [s[p]];
    Associate(s[i..p], [s[p]], Normal(s[p + 1..]));
  }

  lemma AdvanceLf(s: string, data: string, i: nat, p: nat)
    requires Copied(s, data, i, p) && p < |s| && s[p] == '\n'
    ensures Copied(s, data + s[i..p + 1], p + 1, p + 1)
  {
    AdvancePlain(s, data, i, p);
    Associate(data, s[i..p + 1], Normal(s[p + 1..]));
  }

  lemma AdvanceCr(s: string, data: string, i: nat, p: nat)
    requires Copied(s, data, i, p) && p < |s| && s[p] == '\r'
    ensures var q := p + (if At(s, p + 1) == '\n' then 2 else 1); Copied(s, data + s[i..p] + "\n", q, q)
  {
    var q := p + (if At(s, p + 1) == '\n' then 2 else 1);
    assert AfterCr(s[p..]) == s[q..];
    assert s[q..q] == "";
    Regroup(data, s[i..p], Normal(s[q..]));
  }

  lemma Regroup(data: string, w: string, rest: string)
    ensures data + (w + ("\n" + rest)) == (data + w + "\n") + ("" + rest)
  {
  }
}
