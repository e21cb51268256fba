/**
 * The signature-list loader of `db_parser.c`: every line that begins with
 * `Fingerprint` appends one record, named by the rest of the line, to a
 * singly linked list kept in file order.
 *
 * The file is the sequence of lines `fgets` returns, each with its trailing
 * '\n' where the file has one; a file that cannot be opened is `None`.
 */
module DbParser {
  import opened Wrappers

  /**
   * The "unknown" sentinel the matcher tests for. `create_node` never sets
   * the expected TTL and window; the model gives both this value.
   */
  const Unknown: int := -1

  /** The number of characters `strncmp` compares against the keyword. */
  const KeywordLen: nat := 11

  /** Where the name starts: after "Fingerprint" and one separator character. */
  const NameOffset: nat := 12

  /** An `OSSignature`: the OS name and the two T1 expectations the matcher reads. */
  datatype OSSignature = OSSignature(osName: string, t1Ttl: int, t1Window: int)

  /** A `SignatureNode` of the loaded list. */
  class SignatureNode {
    var data: OSSignature
    var next: SignatureNode?

    /** `create_node`: a node holding a copy of the name, both expectations unknown, no successor. */
    constructor (name: string)
      ensures data == OSSignature(name, Unknown, Unknown) && next == null
    {
      data := OSSignature(name, Unknown, Unknown);
      next := null;
    }
  }

  /**
   * `head` starts a NULL-terminated list whose nodes, in order, are `spine`:
   * each node's `next` is the following one, the last one's is NULL, and no
   * node occurs twice, so the list is acyclic and has exactly |spine| nodes.
   */
  ghost predicate IsList(head: SignatureNode?, spine: seq<SignatureNode>)
    reads spine
  {
    && (if spine == [] then head == null else head == spine[0] && spine[|spine| - 1].next == null)
    && (forall i :: 0 <= i < |spine| - 1 ==> spine[i].next == spine[i + 1])
    && (forall i, j :: 0 <= i < j < |spine| ==> spine[i] != spine[j])
  }

  /** The records of the list's nodes, in list order. */
  ghost function Contents(spine: seq<SignatureNode>): (c: seq<OSSignature>)
    reads spine
    ensures |c| == |spine| && forall i :: 0 <= i < |spine| ==> c[i] == spine[i].data
  {
    if spine == [] then [] else [spine[0].data] + Contents(spine[1..])
  }

  /** `strncmp(line, "Fingerprint", 11) == 0`. */
  predicate IsFingerprintLine(line: string)
  {
    |line| >= KeywordLen && line[..KeywordLen] == "Fingerprint"
  }

  /**
   * `strcspn(s, "\n")` on the C string held in the line buffer: the length
   * of the leading run that contains neither '\n' nor the terminating NUL.
   */
  function NameLength(s: string): (n: nat)
    ensures n <= |s|
    ensures forall i :: 0 <= i < n ==> s[i] != '\n' && s[i] != '\0'
    ensures n < |s| ==> s[n] == '\n' || s[n] == '\0'
  {
    if s == [] || s[0] == '\n' || s[0] == '\0' then 0 else 1 + NameLength(s[1..])
  }

  /** The text from offset 12 up to, not including, the first '\n' or NUL; a '\r' is kept. */
  function NameOf(line: string): string
    requires |line| >= NameOffset
  {
    var rest := line[NameOffset..];
    rest[..NameLength(rest)]
  }

  /** The record a `Fingerprint` line creates. */
  function RecordOf(line: string): OSSignature
    requires |line| >= NameOffset
  {
    OSSignature(NameOf(line), Unknown, Unknown)
  }

  /**
   * Every `Fingerprint` line reaches offset 12; a line that is exactly
   * "Fingerprint" with no newline would make `line + 12` point past the string.
   */
  predicate LinesReadable(lines: seq<string>)
  {
    forall i :: 0 <= i < |lines| && IsFingerprintLine(lines[i]) ==> |lines[i]| >= NameOffset
  }

  /** The records the loader produces, in file order. */
  function Records(lines: seq<string>): seq<OSSignature>
    requires LinesReadable(lines)
    decreases |lines|
  {
    if lines == [] then []
    else
      var last := lines[|lines| - 1];
      Records(lines[..|lines| - 1]) + (if IsFingerprintLine(last) then [RecordOf(last)] else [])
  }

  /** The number of lines whose first 11 characters are `Fingerprint`. */
  function CountFingerprintLines(lines: seq<string>): nat
    decreases |lines|
  {
    if lines == [] then 0
    else (if IsFingerprintLine(lines[0]) then 1 else 0) + CountFingerprintLines(lines[1..])
  }

  /** Loading two pieces of a file one after the other is loading the whole file. */
  lemma {:induction false} RecordsAppend(a: seq<string>, b: seq<string>)
    requires LinesReadable(a + b)
    ensures LinesReadable(a) && LinesReadable(b)
    ensures Records(a + b) == Records(a) + Records(b)
    decreases |b|
  {
    assert forall i :: 0 <= i < |a| ==> (a + b)[i] == a[i];
    assert forall i :: 0 <= i < |b| ==> (a + b)[|a| + i] == b[i];
    if b != [] {
      var b' := b[..|b| - 1];
      assert (a + b)[..|a + b| - 1] == a + b';
      RecordsAppend(a, b');
    } else {
      assert a + b == a;
    }
  }

  /** Lines that do not start with `Fingerprint` create nothing and change nothing. */
  lemma OtherLineAddsNothing(a: seq<string>, line: string, b: seq<string>)
    requires LinesReadable(a + b) && !IsFingerprintLine(line)
    ensures LinesReadable(a + [line] + b)
    ensures Records(a + [line] + b) == Records(a + b)
  {
    var whole := a + [line] + b;
    assert forall i :: 0 <= i < |whole| && i != |a| ==>
      whole[i] == (a + b)[if i < |a| then i else i - 1];
    RecordsAppend(a, b);
    RecordsAppend(a + [line], b);
    RecordsAppend(a, [line]);
    assert Records([line]) == Records([]) + [];
  }

  /** One record per `Fingerprint` line. */
  lemma {:induction false} RecordCount(lines: seq<string>)
    requires LinesReadable(lines)
    ensures |Records(lines)| == CountFingerprintLines(lines)
    decreases |lines|
  {
    if lines != [] {
      assert lines == [lines[0]] + lines[1..];
      RecordsAppend([lines[0]], lines[1..]);
      assert [lines[0]][..0] == [];
      RecordCount(lines[1..]);
    }
  }

  /**
   * Order: the record of the `Fingerprint` line at index i is the one at
   * position "number of `Fingerprint` lines before i" in the result.
   */
  lemma RecordPosition(lines: seq<string>, i: nat)
    requires LinesReadable(lines) && i < |lines| && IsFingerprintLine(lines[i])
    ensures CountFingerprintLines(lines[..i]) < |Records(lines)|
    ensures Records(lines)[CountFingerprintLines(lines[..i])] == RecordOf(lines[i])
  {
    var pre, post := lines[..i], lines[i + 1..];
    assert lines == pre + [lines[i]] + post;
    RecordsAppend(pre + [lines[i]], post);
    RecordsAppend(pre, [lines[i]]);
    assert [lines[i]][..0] == [];
    RecordCount(pre);
  }

  /** With no `Fingerprint` lines the result is empty. */
  lemma NoFingerprintLinesNoRecords(lines: seq<string>)
    requires LinesReadable(lines) && forall i :: 0 <= i < |lines| ==> !IsFingerprintLine(lines[i])
    ensures Records(lines) == []
  {
    if lines != [] {
      var init := lines[..|lines| - 1];
      assert forall i :: 0 <= i < |init| ==> init[i] == lines[i];
      NoFingerprintLinesNoRecords(init);
    }
  }

  /** Every record the loader produces has both expectations unknown. */
  lemma {:induction false} RecordsHaveUnknownExpectations(lines: seq<string>)
    requires LinesReadable(lines)
    ensures forall i :: 0 <= i < |Records(lines)| ==>
              Records(lines)[i].t1Ttl == Unknown && Records(lines)[i].t1Window == Unknown
    decreases |lines|
  {
    if lines != [] {
      var init := lines[..|lines| - 1];
      assert LinesReadable(init) by {
        assert forall i :: 0 <= i < |init| ==> init[i] == lines[i];
      }
      RecordsHaveUnknownExpectations(init);
    }
  }

  /** Reading one more line extends the records of the lines read so far by that line's record, if any. */
  lemma RecordsOfNextPrefix(lines: seq<string>, i: nat)
    requires LinesReadable(lines) && i < |lines|
    ensures LinesReadable(lines[..i]) && LinesReadable(lines[..i + 1])
    ensures Records(lines[..i + 1])
         == Records(lines[..i]) + if IsFingerprintLine(lines[i]) then [RecordOf(lines[i])] else []
  {
    assert forall k :: 0 <= k <= i ==> lines[..i + 1][k] == lines[k];
    assert lines[..i + 1][..i] == lines[..i];
  }

  /**
   * The list append of `parse_nmap_db`: create a node for `name` and make it
   * the head of an empty list, or link it after `current`, the last node.
   * The list held `recs` before and holds `recs` plus the new record after:
   * no earlier record changes.
   */
  method AppendNode(head: SignatureNode?, current: SignatureNode?, ghost spine: seq<SignatureNode>,
                    ghost recs: seq<OSSignature>, name: string)
    returns (head': SignatureNode?, current': SignatureNode, ghost spine': seq<SignatureNode>)
    requires IsList(head, spine)
    requires current == if spine == [] then null else spine[|spine| - 1]
    requires |recs| == |spine| && forall k :: 0 <= k < |spine| ==> spine[k].data == recs[k]
    modifies current
    ensures IsList(head', spine') && spine' == spine + [current'] && fresh(current')
    ensures var recs' := recs + [OSSignature(name, Unknown, Unknown)];
            |recs'| == |spine'| && forall k :: 0 <= k < |spine'| ==> spine'[k].data == recs'[k]
  {
    var newNode := new SignatureNode(name);
    if head == null {
      head' := newNode;
      current' := head';
    } else {
      current.next := newNode;
      current' := newNode;
      head' := head;
    }
    spine' := spine + [newNode];
  }

  /**
   * `parse_nmap_db` on the lines of the file: for every `Fingerprint` line a
   * node is created and linked after `current`, and `count` is the number of
   * nodes. The list built is a well-formed NULL-terminated list over
   * `spine` holding exactly `Records(lines)`; an unopenable file gives NULL.
   */
  method ParseNmapDb(file: Option<seq<string>>) returns (head: SignatureNode?, count: nat, ghost spine: seq<SignatureNode>)
    requires file.Some? ==> LinesReadable(file.value)
    ensures IsList(head, spine)
    ensures file.None? ==> head == null && count == 0
    ensures file.Some? ==> Contents(spine) == Records(file.value) && count == |spine|
  {
    if file.None? {
      return null, 0, [];
    }
    var lines := file.value;
    head, count, spine := null, 0, [];
    var current: SignatureNode? := null;
    ghost var recs: seq<OSSignature> := [];
    var i := 0;
    while i < |lines|
      invariant 0 <= i <= |lines|
      invariant IsList(head, spine)
      invariant current == if spine == [] then null else spine[|spine| - 1]
      invariant current != null ==> fresh(current)
      invariant LinesReadable(lines[..i]) && recs == Records(lines[..i])
      invariant |recs| == |spine| == count
      invariant forall k :: 0 <= k < |spine| ==> spine[k].data == recs[k]
    {
      var line := lines[i];
      RecordsOfNextPrefix(lines, i);
      if IsFingerprintLine(line) {
        head, current, spine := AppendNode(head, current, spine, recs, NameOf(line));
        recs := recs + [RecordOf(line)];
        count := count + 1;
      }
      i := i + 1;
    }
    assert lines[..i] == lines;
  }
}
