/** The merging program's buffers and routines. */
module AcctMerg {
  import opened AcctMergSpec

  /** An input file; a closed one yields nothing. */
  datatype File = Closed | Reading(rest: seq<Tacct>)

  function Unread(f: File): seq<Tacct> {
    if f.Closed? then [] else Live(f.rest)
  }

  /** What a stream still yields: the record in hand, and the file behind it. */
  function Stream(hand: Tacct, f: File): seq<Tacct> {
    if hand.name == "" then [] else [hand] + Unread(f)
  }

  function Inputs(files: seq<File>): (ss: Streams)
    ensures |ss| == |files|
  {
    seq(|files|, i requires 0 <= i < |files| => Unread(files[i]))
  }

  lemma {:induction false} MergeStep(ss: Streams, out: seq<Tacct>, tt: Usage, i: nat, uidsum: bool)
    requires i == Least(ss, uidsum)
    ensures var (left, rec) := Group(ss, i, uidsum);
      && out + Merge(ss, uidsum) == out + [rec] + Merge(left, uidsum)
      && MergeTotal(ss, tt, uidsum) == MergeTotal(left, GroupTotal(ss, i, tt, uidsum), uidsum)
  {}

  lemma {:induction false} LeastStep(ss: Streams, j: nat, best: int, uidsum: bool)
    requires j < |ss| && -1 <= best < j && (best >= 0 ==> ss[best] != [])
    ensures var better := ss[j] != [] && (best < 0 || Before(ss[j][0], ss[best][0], uidsum));
      LeastFrom(ss, j, best, uidsum) == LeastFrom(ss, j + 1, if better then j else best, uidsum)
  {}

  lemma {:induction false} DrainStep(ss: Streams, j: nat, k: Tacct, acc: Usage, tt: Usage, uidsum: bool)
    requires j < |ss| && ss[j] != [] && Same(ss[j][0], k, uidsum)
    ensures var after, use := ss[j := ss[j][1..]], ss[j][0].use;
      && Size(after) < Size(ss)
      && Drain(ss, j, k, acc, uidsum) == Drain(after, j, k, Add(acc, use), uidsum)
      && DrainTotal(ss, j, k, tt, uidsum) == DrainTotal(after, j, k, Add(tt, use), uidsum)
  {
    SizeSet(ss, j, ss[j][1..]);
  }

  lemma {:induction false} DrainSkip(ss: Streams, j: nat, k: Tacct, acc: Usage, tt: Usage, uidsum: bool)
    requires j < |ss| && !(ss[j] != [] && Same(ss[j][0], k, uidsum))
    ensures Drain(ss, j, k, acc, uidsum) == Drain(ss, j + 1, k, acc, uidsum)
    ensures DrainTotal(ss, j, k, tt, uidsum) == DrainTotal(ss, j + 1, k, tt, uidsum)
  {}

  class Merger {
    const tb: array<Tacct>
    const fl: array<File>
    const uidsum: bool
    const totalonly: bool
    var tt: Usage
    var out: seq<Tacct>
    ghost var streams: Streams

    constructor (files: seq<File>, u: bool, t: bool)
      ensures Valid() && fresh(tb) && fresh(fl) && fl[..] == files
      ensures tt == Zero && out == [] && uidsum == u && totalonly == t
    {
      tb := new Tacct[|files|](_ => Tacct(0, "", Zero));
      fl := new File[|files|](i requires 0 <= i < |files| => files[i]);
      uidsum, totalonly, tt, out := u, t, Zero, [];
      streams := seq(|files|, _ => []);
    }

    ghost predicate Valid()
      reads this, tb, fl
    {
      && tb.Length == fl.Length == |streams|
      && forall i :: 0 <= i < |streams| ==> streams[i] == Stream(tb[i], fl[i])
    }

    /** getnext: the record in hand is replaced by the next one of its file. */
    method GetNext(i: nat) returns (ok: bool)
      requires Valid() && i < tb.Length
      modifies tb, fl, this`streams
      ensures Valid() && streams == old(streams)[i := Unread(old(fl[i]))]
      ensures forall j :: 0 <= j < fl.Length && j != i ==> fl[j] == old(fl[j])
      ensures ok <==> old(fl[i]).Reading? && old(fl[i]).rest != []
      ensures ok ==> tb[i] == old(fl[i]).rest[0] && fl[i] == Reading(old(fl[i]).rest[1..])
      ensures !ok ==> fl[i].Closed? && streams[i] == []
    {
      streams := streams[i := Unread(fl[i])];
      tb[i] := tb[i].(name := "");
      if fl[i].Closed? { return false; }
      if fl[i].rest != [] {
        tb[i] := fl[i].rest[0];
        fl[i] := Reading(fl[i].rest[1..]);
        return true;
      }
      fl[i] := Closed;
      ok := false;
    }

    /** Whether stream j has a record that comes before that of the best stream so far. */
    method IsBetter(j: nat, least: int) returns (better: bool)
      requires Valid() && j < tb.Length && -1 <= least < tb.Length && (least >= 0 ==> streams[least] != [])
      ensures better == (streams[j] != [] && (least < 0 || Before(streams[j][0], streams[least][0], uidsum)))
    {
      if tb[j].name == "" { return false; }
      better := least < 0 || tb[j].uid < tb[least].uid ||
                (tb[j].uid == tb[least].uid && !uidsum && NameLess(tb[j].name, tb[least].name));
    }

    /** getleast */
    method GetLeast() returns (least: int)
      requires Valid()
      ensures least == Least(streams, uidsum)
    {
      least := -1;
      ghost var target := Least(streams, uidsum);
      for j := 0 to tb.Length
        invariant -1 <= least < j && (least >= 0 ==> streams[least] != [])
        invariant target == LeastFrom(streams, j, least, uidsum)
      {
        LeastStep(streams, j, least, uidsum);
        var better := IsBetter(j, least);
        if better { least := j; }
      }
    }

    /** Adds the record in hand of stream j to the total, and takes it. */
    method AddHead(j: nat)
      requires Valid() && j < tb.Length && tb[j].name != ""
      modifies this`tt, tb, fl, this`streams
      ensures Valid() && old(streams)[j] != [] && old(streams)[j][0] == old(tb[j])
      ensures streams == old(streams)[j := old(streams)[j][1..]]
      ensures tt == Add(old(tt), old(tb[j].use))
    {
      tt := Add(tt, tb[j].use);
      assert streams[j][1..] == Unread(fl[j]);
      var _ := GetNext(j);
    }

    /** sumcurr */
    method SumCurr(i: nat)
      requires Valid() && i < tb.Length && tb[i].name != ""
      modifies this`tt, this`out, tb, fl, this`streams
      ensures Valid()
      ensures old(streams)[i] != []
      ensures var (left, rec) := Group(old(streams), i, uidsum);
        && streams == left && tt == GroupTotal(old(streams), i, old(tt), uidsum)
        && out == (if totalonly then old(out) else old(out) + [rec])
    {
      var tc := tb[i];
      AddHead(i);
      var use := DrainFrom(i, tc);
      if !totalonly { out := out + [tc.(use := use)]; }
    }

    /** The loop of sumcurr over streams i and up, adding to the record k. */
    method DrainFrom(i: nat, k: Tacct) returns (use: Usage)
      requires Valid() && i < tb.Length
      modifies this`tt, tb, fl, this`streams
      ensures Valid() && (streams, use) == Drain(old(streams), i, k, k.use, uidsum)
      ensures tt == DrainTotal(old(streams), i, k, old(tt), uidsum)
    {
      var j := i;
      use := k.use;
      ghost var final, total := Drain(streams, i, k, use, uidsum), DrainTotal(streams, i, k, tt, uidsum);
      while j < tb.Length
        invariant 0 <= j <= tb.Length && Valid()
        invariant final == Drain(streams, j, k, use, uidsum)
        invariant total == DrainTotal(streams, j, k, tt, uidsum)
        decreases Size(streams), tb.Length - j
      {
        j, use := Turn(j, k, use);
      }
    }

    /** One turn of that loop: take a record of the group, or go to the next stream. */
    method Turn(j: nat, k: Tacct, use: Usage) returns (j': nat, use': Usage)
      requires Valid() && j < tb.Length
      modifies this`tt, tb, fl, this`streams
      ensures Valid() && j' <= tb.Length
      ensures Size(streams) < Size(old(streams)) || (streams == old(streams) && j < j')
      ensures Drain(old(streams), j, k, use, uidsum) == Drain(streams, j', k, use', uidsum)
      ensures DrainTotal(old(streams), j, k, old(tt), uidsum) == DrainTotal(streams, j', k, tt, uidsum)
    {
      if tb[j].name != "" && tb[j].uid == k.uid && (uidsum || tb[j].name == k.name) {
        DrainStep(streams, j, k, use, tt, uidsum);
        j', use' := j, Add(use, tb[j].use);
        AddHead(j);
      } else {
        DrainSkip(streams, j, k, use, tt, uidsum);
        j', use' := j + 1, use;
      }
    }

    /** Reads a first record from every file. */
    method Fill()
      requires Valid()
      modifies tb, fl, this`streams
      ensures Valid() && streams == Inputs(old(fl[..]))
    {
      for i := 0 to tb.Length
        invariant Valid()
        invariant forall j :: 0 <= j < i ==> streams[j] == Unread(old(fl[j]))
        invariant forall j :: i <= j < fl.Length ==> fl[j] == old(fl[j])
      {
        var _ := GetNext(i);
      }
    }

    /** Fills the buffers, then writes group after group. */
    method Run()
      requires Valid() && out == []
      modifies this`tt, this`out, tb, fl, this`streams
      ensures var ss := Inputs(old(fl[..]));
        out == (if totalonly then [] else Merge(ss, uidsum)) && tt == MergeTotal(ss, old(tt), uidsum)
    {
      Fill();
      ghost var ss := streams;
      var least := GetLeast();
      while least >= 0
        invariant Valid() && least == Least(streams, uidsum)
        invariant if totalonly then out == [] else out + Merge(streams, uidsum) == Merge(ss, uidsum)
        invariant MergeTotal(streams, tt, uidsum) == MergeTotal(ss, old(tt), uidsum)
        decreases Size(streams)
      {
        MergeStep(streams, out, tt, least, uidsum);
        SumCurr(least);
        least := GetLeast();
      }
    }
  }
}
