/** An abstraction of Go's `archive/tar` writer as the OVA builder uses it:
    an archive is the sequence of entries written so far, each a header and
    the body bytes that followed it. The byte layout of the stream is not
    modelled. Failures of the output the writer writes to are given up front
    as `Faults`, by entry number. */
module Tar {
  import opened Failures
  import opened Os

  datatype Header = Header(name: string, size: nat, mode: FileMode, modTime: Time)

  datatype Entry = Entry(header: Header, body: seq<byte>)

  /** Where the output fails: writing the header of entry n fails when
      n is in `header`; each write to the body of entry n takes at most
      `body[n]` bytes when n is in `body`. */
  datatype Faults = Faults(header: set<nat>, body: map<nat, nat>)

  /** The error of one writer operation and the entries after it. */
  datatype Step = Step(err: Option<Error>, entries: seq<Entry>)

  /** No body is longer than its header's size, and every body but the
      last is complete. */
  predicate WellFormed(es: seq<Entry>)
  {
    && (forall i :: 0 <= i < |es| ==> |es[i].body| <= es[i].header.size)
    && (forall i :: 0 <= i < |es| - 1 ==> |es[i].body| == es[i].header.size)
  }

  /** How many body bytes the current entry still expects (0 before the
      first header). */
  function Remaining(es: seq<Entry>): nat
  {
    if es == [] then 0
    else
      var e := es[|es| - 1];
      if |e.body| <= e.header.size then e.header.size - |e.body| else 0
  }

  /** The entries with `data` added to the body of the last one. */
  function Extend(es: seq<Entry>, data: seq<byte>): seq<Entry>
    requires es != [] || data == []
  {
    if es == [] then es
    else
      var e := es[|es| - 1];
      es[..|es| - 1] + [Entry(e.header, e.body + data)]
  }

  /** `Writer.WriteHeader`: refused while the previous body is incomplete or
      when the output fails; otherwise a new entry with an empty body. */
  function AfterHeader(es: seq<Entry>, faults: Faults, h: Header): (r: Step)
    ensures WellFormed(es) ==> WellFormed(r.entries)
    ensures r.err == None <==> Remaining(es) == 0 && |es| !in faults.header
    ensures r.err == None ==> r.entries == es + [Entry(h, [])]
    ensures r.err != None ==> r.entries == es
    ensures Remaining(es) != 0 ==> r.err == Some(MissedBytes)
    ensures Remaining(es) == 0 && |es| in faults.header ==> r.err == Some(HeaderRejected)
  {
    if Remaining(es) != 0 then Step(Some(MissedBytes), es)
    else if |es| in faults.header then Step(Some(HeaderRejected), es)
    else Step(None, es + [Entry(h, [])])
  }

  /** `Writer.Write`: at most the remaining size of the current entry is
      written; more is `WriteTooLong`, and an output that gives up part-way
      leaves the body cut short. */
  function AfterWrite(es: seq<Entry>, faults: Faults, data: seq<byte>): (r: Step)
    ensures WellFormed(es) ==> WellFormed(r.entries)
    ensures |r.entries| == |es|
    ensures forall i :: 0 <= i < |es| ==> r.entries[i].header == es[i].header
    ensures forall i :: 0 <= i < |es| - 1 ==> r.entries[i] == es[i]
    ensures es != [] ==>
      var (old_, new_) := (es[|es| - 1].body, r.entries[|es| - 1].body);
      |old_| <= |new_| <= |old_| + |data| && new_ == old_ + data[..|new_| - |old_|]
    ensures r.err == None <==>
      && |data| <= Remaining(es)
      && (es == [] || |es| - 1 !in faults.body || |data| <= faults.body[|es| - 1])
    ensures r.err == None ==> r.entries == Extend(es, data)
    ensures r.err in {None, Some(BodyRejected), Some(WriteTooLong)}
  {
    var room := Remaining(es);
    var n := if |data| <= room then |data| else room;
    var k := |es| - 1;
    if es != [] && k in faults.body && faults.body[k] < n then
      Step(Some(BodyRejected), Extend(es, data[..faults.body[k]]))
    else if |data| <= room then Step(None, Extend(es, data))
    else Step(Some(WriteTooLong), Extend(es, data[..n]))
  }

  /** A new entry may start once the last one is complete. */
  lemma AppendKeepsWellFormed(es: seq<Entry>, e: Entry)
    requires WellFormed(es) && Remaining(es) == 0 && |e.body| <= e.header.size
    ensures WellFormed(es + [e])
  {
    var es' := es + [e];
    forall i | 0 <= i < |es'| - 1 ensures |es'[i].body| == es'[i].header.size {
      assert es'[i] == es[i];
    }
  }

  /** A body written in one go right after its header: the entry gets a
      prefix of the bytes, all of them unless the output gives up first. */
  lemma WriteAfterHeader(es: seq<Entry>, faults: Faults, h: Header, data: seq<byte>)
    requires |data| == h.size
    ensures AfterWrite(es + [Entry(h, [])], faults, data) ==
      if |es| in faults.body && faults.body[|es|] < |data|
      then Step(Some(BodyRejected), es + [Entry(h, data[..faults.body[|es|]])])
      else Step(None, es + [Entry(h, data)])
  {
    var es' := es + [Entry(h, [])];
    assert es'[..|es|] == es;
    assert es'[|es|].body + data == data;
    if |es| in faults.body && faults.body[|es|] < |data| {
      assert es'[|es|].body + data[..faults.body[|es|]] == data[..faults.body[|es|]];
    }
  }

  /** A tar writer over an output that fails as `faults` says. */
  class Writer {
    var entries: seq<Entry>
    const faults: Faults

    ghost predicate Valid()
      reads this
    {
      WellFormed(entries)
    }

    constructor (faults: Faults)
      ensures Valid() && entries == [] && this.faults == faults
    {
      entries := [];
      this.faults := faults;
    }

    method WriteHeader(h: Header) returns (err: Option<Error>)
      requires Valid()
      modifies this
      ensures Valid()
      ensures Step(err, entries) == AfterHeader(old(entries), faults, h)
    {
      if Remaining(entries) != 0 {
        return Some(MissedBytes);
      }
      if |entries| in faults.header {
        return Some(HeaderRejected);
      }
      entries := entries + [Entry(h, [])];
      err := None;
    }

    /** Writes `data` into the current body; `n` is how many bytes went in. */
    method Write(data: seq<byte>) returns (n: nat, err: Option<Error>)
      requires Valid()
      modifies this
      ensures Valid()
      ensures n <= |data| && n <= Remaining(old(entries))
      ensures entries == Extend(old(entries), data[..n])
      ensures Step(err, entries) == AfterWrite(old(entries), faults, data)
    {
      var room := Remaining(entries);
      n, err := |data|, None;
      if room < |data| {
        n, err := room, Some(WriteTooLong);
      }
      var k := |entries| - 1;
      if entries != [] && k in faults.body && faults.body[k] < n {
        n, err := faults.body[k], Some(BodyRejected);
      }
      if entries != [] {
        var e := entries[k];
        entries := entries[..k] + [Entry(e.header, e.body + data[..n])];
      }
    }
  }
}
