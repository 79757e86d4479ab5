/** The part of the JCR content repository the document viewer uses: nodes addressed by path,
    with a primary type, mixins and properties, an editing session whose changes become
    persistent on save, and the file-node conventions (a jcr:content child holding jcr:data and
    jcr:mimeType). */
module Jcr {
  import opened Outcomes
  import Host

  type Bytes = seq<bv8>
  /** A point in time, as a Calendar stores it. */
  type Timestamp = int
  /** A node's path: the names from the root down; the root is the empty path. */
  type Path = seq<string>

  datatype Value = StringValue(s: string) | LongValue(n: int) | BinaryValue(data: Bytes) | DateValue(t: Timestamp)

  datatype Node = Node(primaryType: string, mixins: set<string>, props: map<string, Value>)

  type Nodes = map<Path, Node>

  const NT_FILE := "nt:file"
  const NT_RESOURCE := "nt:resource"
  const JCR_CONTENT := "jcr:content"
  const JCR_DATA := "jcr:data"
  const JCR_MIMETYPE := "jcr:mimeType"
  const JCR_LASTMODIFIED := "jcr:lastModified"

  /** Node.isNodeType: the primary type or one of the mixins is t. */
  predicate IsNodeType(n: Node, t: string) {
    n.primaryType == t || t in n.mixins
  }

  /** Node.getName: the last name of the path; the root's name is empty. */
  function Name(p: Path): string {
    if p == [] then "" else p[|p| - 1]
  }

  /** Node.getParent: the root has none (getParent throws). */
  function Parent(p: Path): (r: Option<Path>)
    ensures r.None? <==> p == []
    ensures r.Some? ==> r.value + [Name(p)] == p
  {
    if p == [] then None else Some(p[..|p| - 1])
  }

  /** The names of the children of p. */
  function ChildNames(nodes: Nodes, p: Path): (names: set<string>)
    ensures forall n :: n in names <==> p + [n] in nodes
  {
    var names := set q | q in nodes && |q| == |p| + 1 && q[..|p|] == p :: q[|p|];
    assert forall n :: p + [n] in nodes ==> n in names by {
      forall n | p + [n] in nodes
        ensures n in names
      {
        var q := p + [n];
        assert q[..|p|] == p && q[|p|] == n;
      }
    }
    assert forall n :: n in names ==> p + [n] in nodes by {
      forall n | n in names
        ensures p + [n] in nodes
      {
        var q :| q in nodes && |q| == |p| + 1 && q[..|p|] == p && q[|p|] == n;
        assert q == p + [n];
      }
    }
    names
  }

  /** getFileContent().getContentType(): the jcr:mimeType of the jcr:content child, or null. */
  function ContentType(nodes: Nodes, p: Path): Option<string> {
    var c := p + [JCR_CONTENT];
    if c in nodes && JCR_MIMETYPE in nodes[c].props && nodes[c].props[JCR_MIMETYPE].StringValue? then
      Some(nodes[c].props[JCR_MIMETYPE].s)
    else None
  }

  /** The binary jcr:data of the jcr:content child, when there is one. */
  function FileData(nodes: Nodes, p: Path): Option<Bytes> {
    var c := p + [JCR_CONTENT];
    if c in nodes && JCR_DATA in nodes[c].props && nodes[c].props[JCR_DATA].BinaryValue? then
      Some(nodes[c].props[JCR_DATA].data)
    else None
  }

  /** The repository with property name of node p set to v: p's other properties, its type and
      mixins, and every other node stay as they were. */
  function WithProperty(nodes: Nodes, p: Path, name: string, v: Value): (r: Nodes)
    requires p in nodes
    ensures r.Keys == nodes.Keys
    ensures r[p].primaryType == nodes[p].primaryType && r[p].mixins == nodes[p].mixins
    ensures r[p].props == nodes[p].props[name := v]
    ensures forall q :: q in nodes && q != p ==> r[q] == nodes[q]
  {
    nodes[p := nodes[p].(props := nodes[p].props[name := v])]
  }

  /** The repository after uploadFile(name, stream, mimeType) in folder: the file node is created
      when missing (an existing node keeps its type, mixins and properties), and its content
      child receives the data and the mime type. */
  function WithFile(nodes: Nodes, p: Path, data: Bytes, mime: string): Nodes {
    var file := if p in nodes then nodes[p] else Node(NT_FILE, {}, map[]);
    var c := p + [JCR_CONTENT];
    var content := if c in nodes then nodes[c] else Node(NT_RESOURCE, {}, map[]);
    nodes[p := file][c := content.(props := content.props[JCR_DATA := BinaryValue(data)][JCR_MIMETYPE := StringValue(mime)])]
  }

  /** What was uploaded reads back: the file node exists, holds the data under the given mime
      type, is an nt:file when it was created, and no other node changes. */
  lemma UploadReadsBack(nodes: Nodes, p: Path, data: Bytes, mime: string)
    ensures var r := WithFile(nodes, p, data, mime);
      && p in r && FileData(r, p) == Some(data) && ContentType(r, p) == Some(mime)
      && (p !in nodes ==> r[p].primaryType == NT_FILE)
      && (forall q :: q in nodes && q != p && q != p + [JCR_CONTENT] ==> q in r && r[q] == nodes[q])
      && r.Keys == nodes.Keys + {p, p + [JCR_CONTENT]}
  {
    var r := WithFile(nodes, p, data, mime);
    assert p != p + [JCR_CONTENT] by {
      assert |p| != |p + [JCR_CONTENT]|;
    }
  }

  /** Uploading the same data under the same mime type a second time changes nothing more. */
  lemma WithFileIdempotent(nodes: Nodes, p: Path, data: Bytes, mime: string)
    ensures var r := WithFile(nodes, p, data, mime);
      WithFile(r, p, data, mime) == r
  {
    var r := WithFile(nodes, p, data, mime);
    var c := p + [JCR_CONTENT];
    assert p != c by {
      assert |p| != |c|;
    }
    var props := r[c].props;
    assert props[JCR_DATA := BinaryValue(data)][JCR_MIMETYPE := StringValue(mime)] == props;
    assert r[p := r[p]][c := r[c].(props := props)] == r;
  }

  /** An editing session over the repository: nodes holds the session's view, persisted what has
      been saved. */
  class Session {
    var nodes: Nodes
    var persisted: Nodes

    constructor (nodes: Nodes)
      ensures this.nodes == nodes && persisted == nodes
    {
      this.nodes := nodes;
      persisted := nodes;
    }

    /** Node.addNode(name, type) for a name the parent does not hold yet. */
    method AddNode(p: Path, primaryType: string)
      requires p !in nodes
      modifies this`nodes
      ensures nodes == old(nodes)[p := Node(primaryType, {}, map[])]
    {
      nodes := nodes[p := Node(primaryType, {}, map[])];
    }

    /** Node.addMixin. */
    method AddMixin(p: Path, mixin: string)
      requires p in nodes
      modifies this`nodes
      ensures nodes == old(nodes)[p := old(nodes)[p].(mixins := old(nodes)[p].mixins + {mixin})]
    {
      nodes := nodes[p := nodes[p].(mixins := nodes[p].mixins + {mixin})];
    }

    /** Node.setProperty: the property gets the value, whatever it held before. */
    method SetProperty(p: Path, name: string, v: Value)
      requires p in nodes
      modifies this`nodes
      ensures nodes == WithProperty(old(nodes), p, name, v)
    {
      nodes := nodes[p := nodes[p].(props := nodes[p].props[name := v])];
    }

    /** Property.remove. */
    method RemoveProperty(p: Path, name: string)
      requires p in nodes
      modifies this`nodes
      ensures nodes == old(nodes)[p := old(nodes)[p].(props := old(nodes)[p].props - {name})]
    {
      nodes := nodes[p := nodes[p].(props := nodes[p].props - {name})];
    }

    /** Node.uploadFile(name, stream, mimeType) on the folder. */
    method UploadFile(folder: Path, name: string, data: Bytes, mime: string)
      modifies this`nodes
      ensures nodes == WithFile(old(nodes), folder + [name], data, mime)
    {
      nodes := WithFile(nodes, folder + [name], data, mime);
    }

    /** Session.save: the session's changes become persistent. */
    method Save()
      modifies this`persisted
      ensures persisted == nodes
    {
      persisted := nodes;
    }

    /** JCRContentUtils.downloadFileContent(node, file): copies the node's binary content into the
        file; a node without content throws a RepositoryException (PathNotFoundException). */
    method DownloadFileContent(host: Host.Host, p: Path, f: Host.FileId) returns (r: Outcome)
      requires host.Valid() && f < host.nextFile
      modifies host`files
      ensures host.Valid()
      ensures FileData(nodes, p).None? ==> r == Fail(RepositoryException) && host.files == old(host.files)
      ensures FileData(nodes, p).Some? ==> r == Pass && host.files == old(host.files)[f := FileData(nodes, p).value]
    {
      var data := FileData(nodes, p);
      if data.None? {
        return Fail(RepositoryException);
      }
      host.WriteFile(f, data.value);
      r := Pass;
    }

    /** getFileContent().downloadFile(): a stream over the node's binary content, or null when it
        has none (the repository error is logged, not thrown). */
    method DownloadFile(host: Host.Host, p: Path) returns (s: Option<Host.StreamId>)
      requires host.Valid()
      modifies host`streams, host`nextStream
      ensures host.Valid()
      ensures FileData(nodes, p).None? ==> s.None? && host.streams == old(host.streams)
      ensures FileData(nodes, p).Some? ==>
        s.Some? && s.value !in old(host.streams) && host.streams == old(host.streams)[s.value := FileData(nodes, p).value]
    {
      var data := FileData(nodes, p);
      if data.None? {
        return None;
      }
      var id := host.OpenBytes(data.value);
      s := Some(id);
    }
  }
}
