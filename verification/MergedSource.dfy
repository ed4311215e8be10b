/** Source text of a directory module: the files' bytes joined into one buffer (workflow/parse_dir.go)
    and expressions cut back out of it (extractExprSource in workflow/compile_switches.go). */
module MergedSource {
  import opened Names

  const NEWLINE: Byte := 10

  /** One parsed file. */
  datatype FileEntry = FileEntry(path: Name, sourceBytes: Bytes)

  /** A byte range relative to the named file. */
  datatype Range = Range(filename: Name, start: nat, end: nat)

  // ------------------------------------------------------------------------ joining

  function Join(parts: seq<Bytes>, sep: Byte): Bytes {
    if parts == [] then []
    else if |parts| == 1 then parts[0]
    else Join(parts[..|parts| - 1], sep) + [sep] + parts[|parts| - 1]
  }

  lemma JoinSnoc(parts: seq<Bytes>, p: Bytes, sep: Byte)
    ensures Join(parts + [p], sep) == if parts == [] then p else Join(parts, sep) + [sep] + p
  {
    assert (parts + [p])[..|parts|] == parts;
  }

  function Length(parts: seq<Bytes>): nat {
    if parts == [] then 0 else Length(parts[..|parts| - 1]) + |parts[|parts| - 1]|
  }

  lemma LengthSnoc(parts: seq<Bytes>, p: Bytes)
    ensures Length(parts + [p]) == Length(parts) + |p|
  {
    assert (parts + [p])[..|parts|] == parts;
  }

  lemma NoParts(sep: Byte)
    ensures Join([], sep) == [] && Length([]) == 0
  {
  }

  /** The space for the parts and the separators between them. */
  method TotalSize(parts: seq<Bytes>) returns (total: nat)
    requires parts != []
    ensures total == |parts| - 1 + Length(parts)
  {
    hide Length;
    NoParts(0);
    assert parts[..0] == [] && parts[..|parts|] == parts;
    total := |parts| - 1;
    for i := 0 to |parts|
      invariant total == |parts| - 1 + Length(parts[..i])
    {
      assert parts[..i + 1] == parts[..i] + [parts[i]];
      LengthSnoc(parts[..i], parts[i]);
      total := total + |parts[i]|;
    }
  }

  /** The parts with the separator between them, filling exactly the space set aside; None when there are no parts. */
  method JoinBytes(parts: seq<Bytes>, sep: Byte) returns (r: Option<Bytes>)
    ensures r == if parts == [] then None else Some(Join(parts, sep))
  {
    hide Join, Length;
    if parts == [] {
      return None;
    }
    NoParts(sep);
    assert parts[..0] == [] && parts[..|parts|] == parts;
    var total := TotalSize(parts);
    var out := new Byte[total];
    var at := 0;
    for i := 0 to |parts|
      invariant at == Length(parts[..i]) + (if i == 0 then 0 else i - 1) <= total
      invariant out[..at] == Join(parts[..i], sep)
    {
      assert parts[..i + 1] == parts[..i] + [parts[i]];
      LengthSnoc(parts[..i], parts[i]);
      JoinSnoc(parts[..i], parts[i], sep);
      LengthPrefix(parts, i + 1);
      if i > 0 {
        out[at] := sep;
        at := at + 1;
      }
      Append(out, at, parts[i]);
      at := at + |parts[i]|;
    }
    assert out[..] == out[..at];
    return Some(out[..]);
  }

  lemma {:induction false} LengthPrefix(parts: seq<Bytes>, i: nat)
    requires i <= |parts|
    ensures Length(parts[..i]) <= Length(parts)
    decreases |parts| - i
  {
    if i < |parts| {
      assert parts[..i + 1] == parts[..i] + [parts[i]];
      LengthSnoc(parts[..i], parts[i]);
      LengthPrefix(parts, i + 1);
    } else {
      assert parts[..i] == parts;
    }
  }

  method Append(out: array<Byte>, at: nat, p: Bytes)
    requires at + |p| <= out.Length
    modifies out
    ensures out[..at + |p|] == old(out[..at]) + p
  {
    for j := 0 to |p|
      invariant out[..at] == old(out[..at])
      invariant out[at..at + j] == p[..j]
    {
      out[at + j] := p[j];
    }
    assert out[..at + |p|] == out[..at] + out[at..at + |p|];
  }

  // --------------------------------------------------------------------- extraction

  /** The text of a range, or nothing when it cannot be recovered. Without offsets the buffer is a single file. */
  function ExtractExprSource(range: Option<Range>, source: Option<Bytes>, offsets: Option<map<Name, nat>>): Bytes {
    if source.None? || range.None? then []
    else
      var r := range.value;
      if offsets.Some? && r.filename !in offsets.value then []
      else
        var offset := if offsets.Some? then offsets.value[r.filename] else 0;
        var start, end := r.start + offset, r.end + offset;
        if start < end <= |source.value| then source.value[start..end] else []
  }

  /** Without offsets a range is cut out of the one file there is; nothing comes of a file without an offset, of a range
      beyond the buffer, or of no buffer. */
  lemma ExtractionFromOneFile(file: Bytes, offsets: map<Name, nat>, r: Range)
    ensures r.start <= r.end <= |file| ==> ExtractExprSource(Some(r), Some(file), None) == file[r.start..r.end]
    ensures r.end > |file| ==> ExtractExprSource(Some(r), Some(file), None) == []
    ensures r.filename !in offsets ==> ExtractExprSource(Some(r), Some(file), Some(offsets)) == []
    ensures ExtractExprSource(Some(r), None, Some(offsets)) == []
  {
  }

  // ------------------------------------------------------------------------ merging

  /** The file's bytes lie in the buffer at the recorded offset; an empty file has none. */
  ghost predicate Placed(e: FileEntry, buffer: Bytes, offsets: map<Name, nat>) {
    if e.sourceBytes == [] then e.path !in offsets
    else
      && e.path in offsets
      && offsets[e.path] + |e.sourceBytes| <= |buffer|
      && buffer[offsets[e.path]..][..|e.sourceBytes|] == e.sourceBytes
  }

  ghost predicate DistinctPaths(entries: seq<FileEntry>) {
    forall i, j :: 0 <= i < j < |entries| ==> entries[i].path != entries[j].path
  }

  lemma PlacedLonger(e: FileEntry, buffer: Bytes, offsets: map<Name, nat>, more: Bytes, path: Name, at: nat)
    requires Placed(e, buffer, offsets) && path != e.path
    ensures Placed(e, buffer + more, offsets[path := at])
  {
    if e.sourceBytes != [] {
      var o := offsets[e.path];
      assert (buffer + more)[o..][..|e.sourceBytes|] == buffer[o..][..|e.sourceBytes|];
    }
  }

  lemma PlacedLast(e: FileEntry, buffer: Bytes, offsets: map<Name, nat>)
    requires e.sourceBytes != []
    ensures Placed(e, buffer + e.sourceBytes, offsets[e.path := |buffer|])
  {
    assert (buffer + e.sourceBytes)[|buffer|..][..|e.sourceBytes|] == e.sourceBytes;
  }

  /** The contents of the files that have any, in order. */
  ghost function NonEmpty(entries: seq<FileEntry>): seq<Bytes> {
    if entries == [] then []
    else
      var last := entries[|entries| - 1].sourceBytes;
      NonEmpty(entries[..|entries| - 1]) + if last == [] then [] else [last]
  }

  lemma NothingYet(entries: seq<FileEntry>)
    ensures NonEmpty(entries[..0]) == []
  {
  }

  lemma NonEmptyStep(entries: seq<FileEntry>, i: nat)
    requires i < |entries|
    ensures NonEmpty(entries[..i + 1]) ==
            NonEmpty(entries[..i]) + if entries[i].sourceBytes == [] then [] else [entries[i].sourceBytes]
  {
    assert entries[..i + 1][..i] == entries[..i];
  }

  /** Joins the non-empty files with a line feed between them, and records where each begins. */
  method MergeSources(entries: seq<FileEntry>) returns (source: Option<Bytes>, offsets: map<Name, nat>)
    ensures DistinctPaths(entries) ==> forall e :: e in entries ==>
        Placed(e, if source.Some? then source.value else [], offsets)
    ensures source.None? <==> forall e :: e in entries ==> e.sourceBytes == []
    ensures source.Some? ==> source.value == Join(NonEmpty(entries), 10)
  {
    hide Join, Placed, NonEmpty;
    NoParts(NEWLINE);
    NothingYet(entries);
    var parts: seq<Bytes> := [];
    var nextOffset := 0;
    offsets := map[];
    for i := 0 to |entries|
      invariant nextOffset == |Join(parts, NEWLINE)| + (if parts == [] then 0 else 1)
      invariant forall p :: p in offsets ==> exists j :: 0 <= j < i && entries[j].path == p
      invariant DistinctPaths(entries) ==> forall j :: 0 <= j < i ==> Placed(entries[j], Join(parts, NEWLINE), offsets)
      invariant parts == [] <==> forall j :: 0 <= j < i ==> entries[j].sourceBytes == []
      invariant parts == NonEmpty(entries[..i])
    {
      var e := entries[i];
      NonEmptyStep(entries, i);
      if e.sourceBytes != [] {
        MergeOne(entries, i, parts, offsets, nextOffset);
        offsets := offsets[e.path := nextOffset];
        parts := parts + [e.sourceBytes];
        nextOffset := nextOffset + |e.sourceBytes| + 1;
      } else {
        if DistinctPaths(entries) {
          NothingPlaced(e, Join(parts, NEWLINE), offsets);
        }
      }
    }
    assert entries[..|entries|] == entries;
    source := JoinBytes(parts, NEWLINE);
  }

  lemma NothingPlaced(e: FileEntry, buffer: Bytes, offsets: map<Name, nat>)
    requires e.sourceBytes == [] && e.path !in offsets
    ensures Placed(e, buffer, offsets)
  {
  }

  lemma MergeOne(entries: seq<FileEntry>, i: nat, parts: seq<Bytes>, offsets: map<Name, nat>, at: nat)
    requires i < |entries| && entries[i].sourceBytes != []
    requires at == |Join(parts, NEWLINE)| + (if parts == [] then 0 else 1)
    requires DistinctPaths(entries) ==> forall j :: 0 <= j < i ==> Placed(entries[j], Join(parts, NEWLINE), offsets)
    ensures var joined := Join(parts + [entries[i].sourceBytes], NEWLINE);
            && |joined| == at + |entries[i].sourceBytes|
            && (DistinctPaths(entries) ==> forall j :: 0 <= j <= i ==>
                Placed(entries[j], joined, offsets[entries[i].path := at]))
  {
    hide Join, Placed;
    var e := entries[i];
    var before := Join(parts, NEWLINE);
    JoinSnoc(parts, e.sourceBytes, NEWLINE);
    NoParts(NEWLINE);
    var gap: Bytes := if parts == [] then [] else [NEWLINE];
    var joined := Join(parts + [e.sourceBytes], NEWLINE);
    assert joined == before + gap + e.sourceBytes == before + (gap + e.sourceBytes);
    PlacedLast(e, before + gap, offsets);
    forall j | 0 <= j < i && DistinctPaths(entries)
      ensures Placed(entries[j], joined, offsets[e.path := at])
    {
      PlacedLonger(entries[j], before, offsets, gap + e.sourceBytes, e.path, at);
    }
  }

  /** Cutting a range out of the merged buffer gives the bytes of that range in its own file. */
  lemma ExtractionIsPerFile(e: FileEntry, buffer: Bytes, offsets: map<Name, nat>, start: nat, end: nat)
    requires Placed(e, buffer, offsets) && start <= end <= |e.sourceBytes|
    ensures ExtractExprSource(Some(Range(e.path, start, end)), Some(buffer), Some(offsets)) == e.sourceBytes[start..end]
  {
    if start < end {
      var o := offsets[e.path];
      assert buffer[o + start..o + end] == buffer[o..][..|e.sourceBytes|][start..end];
    }
  }
}
