/**
 Files stored as a linked list of block runs: the reading loop that the SFS
 extent reader and the PFS3 anode reader share.
 */
module RunFiles {
  import opened Bits
  import opened Disk

  const GUARD: nat := 65536

  /** count blocks from start, and the identifier of the next run. */
  datatype Run = Run(start: u32, count: nat, next: u32)

  // ---------- what the file is ----------

  /** Every block of the run can be read; block numbers are 32-bit words. */
  ghost predicate Readable(d: Volume, r: Run)
    decreases r.count
  {
    r.count == 0 || (r.start in d && Readable(d, Tail(r)))
  }

  function Tail(r: Run): Run
    requires r.count > 0
  {
    Run(Wrap32(r.start + 1), r.count - 1, r.next)
  }

  /** All the bytes of a run. */
  ghost function RunData(d: Volume, r: Run): (s: seq<u8>)
    requires Readable(d, r)
    ensures |s| == BSIZE * r.count
    decreases r.count
  {
    if r.count == 0 then [] else d[r.start] + RunData(d, Tail(r))
  }

  ghost function FileData(d: Volume, runs: seq<Run>): seq<u8>
    requires forall r :: r in runs ==> Readable(d, r)
  {
    if runs == [] then [] else RunData(d, runs[0]) + FileData(d, runs[1..])
  }

  /** The runs found by following `next` from id, ending at the identifier `end`. */
  ghost predicate Linked(lookup: u32 -> Result<Run>, d: Volume, runs: seq<Run>, id: u32, end: u32) {
    if runs == [] then id == end
    else
      && id != 0 && lookup(id) == Ok(runs[0])
      && runs[0].count > 0 && Readable(d, runs[0])
      && Linked(lookup, d, runs[1..], runs[0].next, end)
  }

  // ---------- what the loops compute ----------

  /** Up to want bytes of a run, block by block. */
  function ReadRun(d: Volume, r: Run, want: nat): Result<seq<u8>>
    decreases r.count
  {
    if r.count == 0 || want == 0 then Ok([])
    else if r.start !in d then Err(DeviceError)
    else if want <= BSIZE then Ok(d[r.start][..want])
    else Prepend(d[r.start], ReadRun(d, Tail(r), want - BSIZE))
  }

  function Prepend(s: seq<u8>, r: Result<seq<u8>>): Result<seq<u8>> {
    match r
    case Ok(t) => Ok(s + t)
    case Err(e) => Err(e)
  }

  lemma PrependTwice(s: seq<u8>, t: seq<u8>, r: Result<seq<u8>>)
    ensures Prepend(s, Prepend(t, r)) == Prepend(s + t, r) && Prepend([], r) == r
  {
    match r
    case Ok(x) =>
      assert s + (t + x) == s + t + x;
      assert [] + x == x;
    case Err(_) =>
  }

  /** Up to want bytes from the run `id` on, looking at no more than guard runs. */
  function ReadChain(lookup: u32 -> Result<Run>, d: Volume, id: u32, want: nat, guard: nat): Result<seq<u8>>
    decreases guard
  {
    if want == 0 || id == 0 then Ok([])
    else if guard == 0 then Err(ReadError)
    else
      match lookup(id)
      case Err(e) => Err(e)
      case Ok(r) =>
        if r.count == 0 then Ok([])
        else
          match ReadRun(d, r, want)
          case Err(e) => Err(e)
          case Ok(s) =>
            Prepend(s, ReadChain(lookup, d, r.next, if |s| < want then want - |s| else 0, guard - 1))
  }

  // ---------- the loops read the file ----------

  /** One block of a run. */
  lemma ReadRunStep(d: Volume, r: Run, want: nat)
    requires r.count > 0 && want > 0 && r.start in d
    ensures var copy := if want < BSIZE then want else BSIZE;
            ReadRun(d, r, want) == Prepend(d[r.start][..copy], ReadRun(d, Tail(r), want - copy))
  {
    assert d[r.start][..BSIZE] == d[r.start];
    if want <= BSIZE {
      assert d[r.start][..want] + [] == d[r.start][..want];
    }
  }

  lemma {:induction false} ReadRunIsPrefix(d: Volume, r: Run, want: nat)
    requires Readable(d, r)
    ensures ReadRun(d, r, want) == Ok(Prefix(RunData(d, r), want))
    decreases r.count
  {
    if r.count > 0 && want > 0 {
      PrefixConcat(d[r.start], RunData(d, Tail(r)), want);
      if want > BSIZE {
        ReadRunIsPrefix(d, Tail(r), want - BSIZE);
      }
    }
  }

  /** Reading stops for one of three reasons that are not errors. */
  ghost predicate Stops(lookup: u32 -> Result<Run>, end: u32, satisfied: bool, guardLeft: nat) {
    || satisfied
    || end == 0
    || (guardLeft > 0 && lookup(end).Ok? && lookup(end).value.count == 0)
  }

  lemma {:induction false} LinkedReadable(lookup: u32 -> Result<Run>, d: Volume, runs: seq<Run>, id: u32, end: u32)
    requires Linked(lookup, d, runs, id, end)
    ensures forall r :: r in runs ==> Readable(d, r)
  {
    hide Readable;
    if runs != [] {
      LinkedReadable(lookup, d, runs[1..], runs[0].next, end);
      assert runs == [runs[0]] + runs[1..];
    }
  }

  /** The bytes of the runs on the way from id to end. */
  ghost function LinkedData(lookup: u32 -> Result<Run>, d: Volume, runs: seq<Run>, id: u32, end: u32): seq<u8>
    requires Linked(lookup, d, runs, id, end)
  {
    LinkedReadable(lookup, d, runs, id, end);
    FileData(d, runs)
  }

  /** The bytes read are the wanted prefix of the runs laid end to end. */
  lemma {:induction false} ReadChainIsPrefix(lookup: u32 -> Result<Run>, d: Volume, runs: seq<Run>, id: u32, end: u32,
                                             want: nat, guard: nat)
    requires Linked(lookup, d, runs, id, end) && |runs| <= guard
    requires Stops(lookup, end, |LinkedData(lookup, d, runs, id, end)| >= want, guard - |runs|)
    ensures ReadChain(lookup, d, id, want, guard) == Ok(Prefix(LinkedData(lookup, d, runs, id, end), want))
    decreases |runs|
  {
    hide Readable, ReadRun, RunData;
    if runs != [] && want > 0 {
      var r := runs[0];
      ReadRunIsPrefix(d, r, want);
      var s := Prefix(RunData(d, r), want);
      var left := want - |s|;
      LinkedReadable(lookup, d, runs, id, end);
      LinkedReadable(lookup, d, runs[1..], r.next, end);
      assert FileData(d, runs) == RunData(d, r) + FileData(d, runs[1..]);
      ReadChainIsPrefix(lookup, d, runs[1..], r.next, end, left, guard - 1);
      PrefixConcat(RunData(d, r), FileData(d, runs[1..]), want);
      assert s + [] == s;
    }
  }

  /** More runs than the guard allows is reported as a read error. */
  lemma {:induction false} ReadChainTooLong(lookup: u32 -> Result<Run>, d: Volume, runs: seq<Run>, id: u32, end: u32,
                                            want: nat, guard: nat)
    requires Linked(lookup, d, runs, id, end) && |runs| == guard && end != 0
    requires |LinkedData(lookup, d, runs, id, end)| < want
    ensures ReadChain(lookup, d, id, want, guard) == Err(ReadError)
    decreases |runs|
  {
    hide Readable, ReadRun;
    if runs != [] {
      var r := runs[0];
      ReadRunIsPrefix(d, r, want);
      LinkedReadable(lookup, d, runs, id, end);
      LinkedReadable(lookup, d, runs[1..], r.next, end);
      ReadChainTooLong(lookup, d, runs[1..], r.next, end, want - |RunData(d, r)|, guard - 1);
    }
  }

  /** Some block among those a read of want bytes needs of this run cannot be read. */
  ghost predicate Broken(d: Volume, r: Run, want: nat)
    decreases r.count
  {
    r.count > 0 && want > 0 && (r.start !in d || (want > BSIZE && Broken(d, Tail(r), want - BSIZE)))
  }

  lemma {:induction false} BrokenFails(d: Volume, r: Run, want: nat)
    ensures Broken(d, r, want) <==> ReadRun(d, r, want).Err?
    ensures Broken(d, r, want) ==> ReadRun(d, r, want) == Err(DeviceError)
    decreases r.count
  {
    if r.count > 0 && want > BSIZE {
      BrokenFails(d, Tail(r), want - BSIZE);
    }
  }

  /**
   If the runs so far do not satisfy the read, an error in finding the next one is the
   error of the read, and so is a block of it that is needed and cannot be read.
   */
  lemma {:induction false} ReadChainBreaks(lookup: u32 -> Result<Run>, d: Volume, runs: seq<Run>, id: u32, end: u32,
                                           want: nat, guard: nat)
    requires Linked(lookup, d, runs, id, end) && |runs| < guard && end != 0
    requires |LinkedData(lookup, d, runs, id, end)| < want
    ensures lookup(end).Err? ==> ReadChain(lookup, d, id, want, guard) == Err(lookup(end).error)
    ensures lookup(end).Ok? && Broken(d, lookup(end).value, want - |LinkedData(lookup, d, runs, id, end)|) ==>
      ReadChain(lookup, d, id, want, guard) == Err(DeviceError)
    decreases |runs|
  {
    hide Readable, ReadRun;
    if runs == [] {
      if lookup(end).Ok? {
        BrokenFails(d, lookup(end).value, want);
      }
    } else {
      var r := runs[0];
      ReadRunIsPrefix(d, r, want);
      LinkedReadable(lookup, d, runs, id, end);
      LinkedReadable(lookup, d, runs[1..], r.next, end);
      ReadChainBreaks(lookup, d, runs[1..], r.next, end, want - |RunData(d, r)|, guard - 1);
    }
  }

  /** The inner copy loop: appends the run to what has been written. */
  method CopyRun(d: Volume, r: Run, want: nat) returns (res: Result<seq<u8>>)
    ensures res == ReadRun(d, r, want)
  {
    hide Prepend, ReadRun;
    var out: seq<u8> := [];
    var i: nat := 0;
    ghost var rest := r;
    PrependTwice([], [], ReadRun(d, r, want));
    while i < r.count && |out| < want
      invariant i <= r.count && |out| <= want
      invariant rest.count == r.count - i && rest.start == Wrap32(r.start + i)
      invariant ReadRun(d, r, want) == Prepend(out, ReadRun(d, rest, want - |out|))
      decreases r.count - i
    {
      var n := Wrap32(r.start + i);
      if n !in d {
        ReadRunFails(d, rest, want - |out|, out);
        return Err(DeviceError);
      }
      var remain := want - |out|;
      var copy := if remain < BSIZE then remain else BSIZE;
      ReadRunStep(d, rest, remain);
      PrependTwice(out, d[n][..copy], ReadRun(d, Tail(rest), remain - copy));
      out := out + d[n][..copy];
      rest := Tail(rest);
      i := i + 1;
    }
    ReadRunDone(d, rest, want - |out|, out);
    res := Ok(out);
  }

  lemma ReadRunDone(d: Volume, r: Run, want: nat, s: seq<u8>)
    requires r.count == 0 || want == 0
    ensures Prepend(s, ReadRun(d, r, want)) == Ok(s)
  {
    assert s + [] == s;
  }

  lemma ReadRunFails(d: Volume, r: Run, want: nat, s: seq<u8>)
    requires r.count > 0 && want > 0 && r.start !in d
    ensures Prepend(s, ReadRun(d, r, want)) == Err(DeviceError)
  {
  }

  lemma {:induction false} ReadRunBound(d: Volume, r: Run, want: nat)
    ensures ReadRun(d, r, want).Ok? ==> |ReadRun(d, r, want).value| <= want
    decreases r.count
  {
    if r.count > 0 && want > BSIZE {
      ReadRunBound(d, Tail(r), want - BSIZE);
    }
  }

  /** A run that can be read yields all the bytes it has or all that are wanted. */
  lemma {:induction false} ReadRunLength(d: Volume, r: Run, want: nat)
    requires ReadRun(d, r, want).Ok?
    ensures |ReadRun(d, r, want).value| == if want < BSIZE * r.count then want else BSIZE * r.count
    decreases r.count
  {
    if r.count > 0 && want > BSIZE {
      ReadRunLength(d, Tail(r), want - BSIZE);
    }
  }

  /** Lookups that agree follow the same links. */
  lemma {:induction false} SameLinks(f: u32 -> Result<Run>, g: u32 -> Result<Run>, d: Volume, runs: seq<Run>,
                                     id: u32, end: u32)
    requires Linked(f, d, runs, id, end) && forall k :: f(k) == g(k)
    ensures Linked(g, d, runs, id, end)
  {
    if runs != [] {
      SameLinks(f, g, d, runs[1..], runs[0].next, end);
    }
  }

  /** One turn of the reading loop, after `out` has been written. */
  lemma ReadChainStep(lookup: u32 -> Result<Run>, d: Volume, id: u32, want: nat, guard: nat, out: seq<u8>)
    requires want > 0 && id != 0
    ensures Prepend(out, ReadChain(lookup, d, id, want, guard)) ==
      if guard == 0 then Err(ReadError)
      else
        match lookup(id)
        case Err(e) => Err(e)
        case Ok(r) =>
          if r.count == 0 then Ok(out)
          else
            match ReadRun(d, r, want)
            case Err(e) => Err(e)
            case Ok(s) =>
              Prepend(out + s, ReadChain(lookup, d, r.next, if |s| < want then want - |s| else 0, guard - 1))
    ensures lookup(id).Ok? && ReadRun(d, lookup(id).value, want).Ok? ==>
      |ReadRun(d, lookup(id).value, want).value| <= want
  {
    assert out + [] == out;
    if lookup(id).Ok? {
      var r := lookup(id).value;
      ReadRunBound(d, r, want);
      if guard > 0 && r.count > 0 && ReadRun(d, r, want).Ok? {
        var s := ReadRun(d, r, want).value;
        PrependTwice(out, s, ReadChain(lookup, d, r.next, want - |s|, guard - 1));
      }
    }
  }

  lemma ReadChainEnds(lookup: u32 -> Result<Run>, d: Volume, id: u32, want: nat, guard: nat, out: seq<u8>)
    requires want == 0 || id == 0
    ensures Prepend(out, ReadChain(lookup, d, id, want, guard)) == Ok(out)
  {
    assert out + [] == out;
  }
}
