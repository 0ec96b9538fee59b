/**
 The writing half of rex.py: the `Header` record, the frame `toData` renders for
 it, and `create`, which turns every file of the directory walk into a header and
 writes their frames back to back. The walk itself (`os.walk`, `os.path.join`,
 `read_file`) is an input here: a sequence of paths with their raw contents.
 */
module Archive {
  import opened Bytes

  /** A file path, as the bytes of its name. */
  type Path = seq<byte>

  /** A path with its raw content: what the walk yields, and what extraction writes. */
  datatype File = File(path: Path, data: seq<byte>)

  /** One archive entry: a name, the size its header declares, and the content. */
  datatype Header = Header(name: Path, size: nat, data: seq<byte>)
  {
    /** The header line `[name:size]` with its newline. */
    function Line(): (r: seq<byte>)
      ensures |r| == |name| + |Decimal(size)| + 4
      ensures r[0] == OPEN && r[|r| - 2] == CLOSE && r[|r| - 1] == NEWLINE
    {
      [OPEN] + name + [COLON] + Decimal(size) + [CLOSE, NEWLINE]
    }

    /** Between the brackets of the header line: the name, a colon, then the size's digits. */
    lemma LineFields()
      ensures Line()[1..|name| + 1] == name && Line()[|name| + 1] == COLON
      ensures Line()[|name| + 2..|Line()| - 2] == Decimal(size)
    {
      var digits := Decimal(size);
      assert Line() == [OPEN] + name + [COLON] + digits + [CLOSE, NEWLINE];
    }

    /** The frame for this entry: header line, the content, one separating newline. */
    function ToData(): (r: seq<byte>)
      ensures |r| == |Line()| + |data| + 1
      ensures r[..|Line()|] == Line()
      ensures r[|Line()|..|r| - 1] == data
      ensures r[|r| - 1] == NEWLINE
    {
      Line() + data + [NEWLINE]
    }
  }

  /** The archive holding `headers`: their frames in order, with no index and no footer. */
  function Encode(headers: seq<Header>): seq<byte>
  {
    if headers == [] then [] else headers[0].ToData() + Encode(headers[1..])
  }

  /** Appending a header appends its frame and nothing else. */
  lemma {:induction false} EncodeSnoc(headers: seq<Header>, h: Header)
    ensures Encode(headers + [h]) == Encode(headers) + h.ToData()
  {
    if headers != [] {
      assert (headers + [h])[1..] == headers[1..] + [h];
      EncodeSnoc(headers[1..], h);
    } else {
      assert [h][1..] == [];
    }
  }

  /**
   `create`: one header per walked file, in walk order, each declaring the size of
   its content, then the archive that writes every header's frame in turn.
   */
  method Create(walk: seq<File>) returns (headers: seq<Header>, archive: seq<byte>)
    ensures |headers| == |walk|
    ensures forall i :: 0 <= i < |walk| ==>
      headers[i] == Header(walk[i].path, |walk[i].data|, walk[i].data)
    ensures forall i :: 0 <= i < |headers| ==> headers[i].size == |headers[i].data|
    ensures archive == Encode(headers)
  {
    headers := [];
    for i := 0 to |walk|
      invariant |headers| == i
      invariant forall k :: 0 <= k < i ==>
        headers[k] == Header(walk[k].path, |walk[k].data|, walk[k].data)
    {
      var file := walk[i];
      headers := headers + [Header(file.path, |file.data|, file.data)];
    }
    archive := [];
    for i := 0 to |headers|
      invariant archive == Encode(headers[..i])
    {
      assert headers[..i + 1] == headers[..i] + [headers[i]];
      EncodeSnoc(headers[..i], headers[i]);
      archive := archive + headers[i].ToData();
    }
    assert headers[..|headers|] == headers;
  }
}
