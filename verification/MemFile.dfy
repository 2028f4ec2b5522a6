/** Open files of the in-memory file system: a shared node with its bytes in a buffer that may
    have room to spare, and a position in each open file. */
module MemFile {
  import opened Utf8
  import opened Paths

  // ---------- The bytes of a file ----------

  function Zeros(n: nat): (r: seq<Byte>)
    ensures |r| == n
  {
    seq(n, _ => 0)
  }

  /** The content with a hole up to pos, if it ends before that. */
  function Padded(content: seq<Byte>, pos: nat): (r: seq<Byte>)
    ensures |r| >= pos && content <= r
  {
    if pos > |content| then content + Zeros(pos - |content|) else content
  }

  /** The data laid over the content at pos. */
  function Overlay(content: seq<Byte>, pos: nat, data: seq<Byte>): seq<Byte> {
    var c := Padded(content, pos);
    c[..pos] + data + if pos + |data| < |c| then c[pos + |data|..] else []
  }

  /** What fits over the content is copied; the rest is appended. */
  lemma OverlayInside(c: seq<Byte>, pos: nat, p: seq<Byte>, k: nat)
    requires pos <= |c| && k == if |p| <= |c| - pos then |p| else |c| - pos
    ensures Overlay(c, pos, p) == c[..pos] + p[..k] + c[pos + k..] + p[k..]
    ensures k < |p| ==> pos + k == |c|
  {
  }

  /** A write of no bytes leaves the file alone exactly when it is not behind its end. */
  lemma EmptyWriteExactly(content: seq<Byte>, pos: nat)
    ensures Overlay(content, pos, []) == content <==> pos <= |content|
  {
    if pos <= |content| {
      assert content[..pos] + [] + content[pos..] == content;
    }
  }

  datatype Whence = SeekStart | SeekCurrent | SeekEnd | Unknown

  /** Where a seek leads; negative if nowhere. */
  function Target(size: nat, pos: nat, offset: int, whence: Whence): int {
    match whence
    case SeekStart => offset
    case SeekCurrent => pos + offset
    case SeekEnd => size + offset
    case Unknown => -1
  }

  // ---------- Nodes and open files ----------

  datatype Children = Nil | Dir(entries: map<Component, Node>)

  class Node {
    var children: Children
    /** data[..len] is the content; what is behind it is left over. */
    var data: array<Byte>
    var len: nat
    const isDir: bool

    constructor (isDir: bool)
      ensures Valid() && Contents() == [] && this.isDir == isDir && fresh(data)
      ensures children == if isDir then Dir(map[]) else Nil
    {
      children := if isDir then Dir(map[]) else Nil;
      data := new Byte[0];
      len := 0;
      this.isDir := isDir;
    }

    ghost predicate Valid()
      reads this
    {
      len <= data.Length
    }

    ghost function Contents(): seq<Byte>
      reads this, data
      requires Valid()
    {
      data[..len]
    }

    /** Slicing up to pos within the capacity, and clearing what was left there. */
    method Stretch(pos: nat)
      requires Valid() && len < pos <= data.Length
      modifies this`len, data
      ensures Valid() && data == old(data) && Contents() == Padded(old(Contents()), pos)
    {
      var i := len;
      len := pos;
      while i < pos
        invariant old(len) <= i <= pos
        invariant data[..old(len)] == old(data[..len])
        invariant forall k | old(len) <= k < i :: data[k] == 0
        modifies data
      {
        data[i] := 0;
        i := i + 1;
      }
    }

    /** A new buffer of length pos, with the content and then zeros in it. */
    method Reallocate(pos: nat, capacity: nat)
      requires Valid() && len <= pos <= capacity
      modifies this`data, this`len
      ensures Valid() && fresh(data) && data.Length == capacity && Contents() == Padded(old(Contents()), pos)
    {
      var was := data;
      var d := new Byte[capacity](_ => 0);
      var i := 0;
      while i < len
        invariant i <= len
        invariant d[..i] == was[..i]
        invariant forall k | i <= k < d.Length :: d[k] == 0
        modifies d
      {
        d[i] := was[i];
        i := i + 1;
      }
      data, len := d, pos;
    }

    /** Copy p over the content from pos on, as far as it goes. */
    method CopyOver(pos: nat, p: seq<Byte>) returns (n: nat)
      requires Valid() && pos <= len
      modifies data
      ensures n == if |p| <= len - pos then |p| else len - pos
      ensures Contents() == old(Contents())[..pos] + p[..n] + old(Contents())[pos + n..]
    {
      n := if |p| <= len - pos then |p| else len - pos;
      var i := 0;
      while i < n
        invariant i <= n
        invariant data[..len] == old(Contents())[..pos] + p[..i] + old(Contents())[pos + i..]
        modifies data
      {
        data[pos + i] := p[i];
        i := i + 1;
      }
    }

    /** append, which moves to a buffer of `capacity` or more when there is no room. */
    method Append(p: seq<Byte>, capacity: nat)
      requires Valid()
      modifies this`data, this`len, data
      ensures Valid() && (data == old(data) || fresh(data)) && Contents() == old(Contents()) + p
    {
      if len + |p| > data.Length {
        Reallocate(len, if capacity >= len + |p| then capacity else len + |p|);
      }
      ghost var was := data[..len];
      var n := len;
      len := n + |p|;
      var i := 0;
      while i < |p|
        invariant i <= |p|
        invariant data[..n + i] == was + p[..i]
        modifies data
      {
        data[n + i] := p[i];
        i := i + 1;
      }
    }
  }

  lemma SliceSnoc(c: seq<Byte>, pos: nat, i: nat)
    requires pos + i < |c|
    ensures c[pos..pos + i + 1] == c[pos..pos + i] + [c[pos + i]]
  {
  }

  class File {
    const n: Node
    var pos: nat

    constructor (n: Node)
      ensures this.n == n && pos == 0
    {
      this.n := n;
      pos := 0;
    }

    /** Write; `ok` is false for a directory. The allocator's choice of capacity is `capacity`. */
    method Write(p: seq<Byte>, capacity: nat) returns (ok: bool)
      requires n.Valid()
      modifies this`pos, n`data, n`len, n.data
      ensures n.Valid() && (n.data == old(n.data) || fresh(n.data)) && ok == !n.isDir
      ensures ok ==> n.Contents() == Overlay(old(n.Contents()), old(pos), p) && pos == old(pos) + |p|
      ensures !ok ==> n.Contents() == old(n.Contents()) && pos == old(pos)
    {
      if n.isDir {
        return false;
      }
      ghost var c, at := n.Contents(), pos;
      var rest := p;
      if pos < n.len {
        var k := n.CopyOver(pos, p);
        pos := pos + k;
        rest := p[k..];
        OverlayInside(c, at, p, k);
      } else if pos > n.len {
        if pos <= n.data.Length {
          n.Stretch(pos);
        } else {
          n.Reallocate(pos, pos + |p|);
        }
      }
      if |rest| > 0 {
        n.Append(rest, capacity);
        pos := n.len;
      }
      ok := true;
    }

    /** Read into the front of a buffer. */
    method Read(p: array<Byte>) returns (k: nat, result: ReadResult)
      requires n.Valid() && p != n.data
      modifies this`pos, p
      ensures n.Contents() == old(n.Contents())
      ensures result == if n.isDir then Invalid else if old(pos) >= n.len then EndOfFile else Fine
      ensures k == if result != Fine then 0 else if p.Length <= n.len - old(pos) then p.Length else n.len - old(pos)
      ensures pos == old(pos) + k
      ensures result == Fine ==> p[..k] == n.Contents()[old(pos)..pos]
      ensures p[k..] == old(p[..])[k..]
    {
      if n.isDir {
        return 0, Invalid;
      }
      if pos >= n.len {
        return 0, EndOfFile;
      }
      k := if p.Length <= n.len - pos then p.Length else n.len - pos;
      var i := 0;
      while i < k
        invariant i <= k
        invariant p[..i] == n.Contents()[pos..pos + i]
        invariant p[i..] == old(p[..])[i..]
        invariant n.Contents() == old(n.Contents())
        modifies p
      {
        SliceSnoc(n.Contents(), pos, i);
        p[i] := n.data[pos + i];
        i := i + 1;
      }
      pos := pos + k;
      result := Fine;
    }

    /** Seek; the position stays if it would be negative. */
    method Seek(offset: int, whence: Whence) returns (npos: int)
      requires n.Valid()
      modifies this`pos
      ensures npos == Target(n.len, old(pos), offset, whence)
      ensures pos == if npos < 0 then old(pos) else npos
    {
      npos := pos;
      match whence {
        case SeekStart => npos := offset;
        case SeekCurrent => npos := npos + offset;
        case SeekEnd => npos := n.len + offset;
        case Unknown => npos := -1;
      }
      if npos >= 0 {
        pos := npos;
      }
    }
  }

  datatype ReadResult = Fine | EndOfFile | Invalid

  // ---------- Runs ----------

  /** What files open on one node do, each with its own position. */
  datatype Op =
    | Write(f: nat, data: seq<Byte>)
    | Seek(f: nat, offset: int, whence: Whence)
    | Read(f: nat, size: nat)

  datatype Shared = Shared(content: seq<Byte>, pos: seq<nat>)

  predicate Fits(s: Shared, ops: seq<Op>) {
    forall op | op in ops :: op.f < |s.pos|
  }

  function Min(a: int, b: int): int {
    if a < b then a else b
  }

  function Step(s: Shared, op: Op): (s': Shared)
    requires op.f < |s.pos|
    ensures |s'.pos| == |s.pos|
  {
    var at := s.pos[op.f];
    match op
    case Write(f, data) => Shared(Overlay(s.content, at, data), s.pos[f := at + |data|])
    case Seek(f, offset, whence) =>
      var to := Target(|s.content|, at, offset, whence);
      if to < 0 then s else s.(pos := s.pos[f := to])
    case Read(f, size) => s.(pos := s.pos[f := if at < |s.content| then at + Min(size, |s.content| - at) else at])
  }

  function Run(s: Shared, ops: seq<Op>): (s': Shared)
    requires Fits(s, ops)
    ensures |s'.pos| == |s.pos|
    decreases |ops|
  {
    if ops == [] then s else Run(Step(s, ops[0]), ops[1..])
  }

  datatype Written = At(pos: nat, data: seq<Byte>)

  /** The writes of a run, and where they went. */
  function Writes(s: Shared, ops: seq<Op>): seq<Written>
    requires Fits(s, ops)
    decreases |ops|
  {
    if ops == [] then []
    else (if ops[0].Write? then [At(s.pos[ops[0].f], ops[0].data)] else []) + Writes(Step(s, ops[0]), ops[1..])
  }

  /** What was last written at i; or was there to begin with; or nothing, which reads as zero. */
  function LastWritten(content: seq<Byte>, ws: seq<Written>, i: nat): Byte {
    if ws == [] then (if i < |content| then content[i] else 0)
    else
      var w := ws[|ws| - 1];
      if w.pos <= i < w.pos + |w.data| then w.data[i - w.pos] else LastWritten(content, ws[..|ws| - 1], i)
  }

  /** As far as anything was written. */
  function Extent(size: nat, ws: seq<Written>): nat {
    if ws == [] then size
    else
      var w := ws[|ws| - 1];
      var e := Extent(size, ws[..|ws| - 1]);
      if w.pos + |w.data| > e then w.pos + |w.data| else e
  }

  function Applied(content: seq<Byte>, ws: seq<Written>): seq<Byte> {
    if ws == [] then content else Overlay(Applied(content, ws[..|ws| - 1]), ws[|ws| - 1].pos, ws[|ws| - 1].data)
  }

  lemma OverlayAt(c: seq<Byte>, pos: nat, data: seq<Byte>, i: nat)
    requires i < |Overlay(c, pos, data)|
    ensures Overlay(c, pos, data)[i] ==
      if pos <= i < pos + |data| then data[i - pos] else if i < |c| then c[i] else 0
  {
  }

  /** Each byte is what was last written there. */
  lemma {:induction false} AppliedIsLastWritten(content: seq<Byte>, ws: seq<Written>)
    ensures |Applied(content, ws)| == Extent(|content|, ws)
    ensures forall i | 0 <= i < Extent(|content|, ws) :: Applied(content, ws)[i] == LastWritten(content, ws, i)
    ensures forall i | i >= Extent(|content|, ws) :: LastWritten(content, ws, i) == 0
  {
    if ws != [] {
      var w, before := ws[|ws| - 1], ws[..|ws| - 1];
      AppliedIsLastWritten(content, before);
      var c, r := Applied(content, before), Applied(content, ws);
      OverlaySize(c, w.pos, w.data);
      forall i: nat ensures i < |r| ==> r[i] == LastWritten(content, ws, i)
                    ensures i >= |r| ==> LastWritten(content, ws, i) == 0 {
        ByteAt(content, ws, c, r, w, i);
      }
    }
  }

  lemma OverlaySize(c: seq<Byte>, pos: nat, data: seq<Byte>)
    ensures |Overlay(c, pos, data)| == if pos + |data| > |c| then pos + |data| else |c|
  {
  }

  /** The last write lies over what was written before. */
  lemma ByteAt(content: seq<Byte>, ws: seq<Written>, c: seq<Byte>, r: seq<Byte>, w: Written, i: nat)
    requires ws != [] && w == ws[|ws| - 1] && r == Overlay(c, w.pos, w.data)
    requires if i < |c| then c[i] == LastWritten(content, ws[..|ws| - 1], i) else LastWritten(content, ws[..|ws| - 1], i) == 0
    ensures if i < |r| then r[i] == LastWritten(content, ws, i) else LastWritten(content, ws, i) == 0
  {
    OverlaySize(c, w.pos, w.data);
    if i < |r| {
      OverlayAt(c, w.pos, w.data, i);
    }
  }

  lemma {:induction false} AppliedCons(content: seq<Byte>, w: Written, ws: seq<Written>)
    ensures Applied(content, [w] + ws) == Applied(Overlay(content, w.pos, w.data), ws)
  {
    if ws == [] {
      assert [w] + ws == [w] && [w][..0] == [];
      assert Applied(content, []) == content;
    } else {
      var all := [w] + ws;
      assert all[..|all| - 1] == [w] + ws[..|ws| - 1] && all[|all| - 1] == ws[|ws| - 1];
      AppliedCons(content, w, ws[..|ws| - 1]);
    }
  }

  lemma {:induction false} RunAppliesWrites(s: Shared, ops: seq<Op>)
    requires Fits(s, ops)
    ensures Run(s, ops).content == Applied(s.content, Writes(s, ops))
    decreases |ops|
  {
    if ops != [] {
      var s', rest := Step(s, ops[0]), ops[1..];
      RunAppliesWrites(s', rest);
      if ops[0].Write? {
        AppliedCons(s.content, At(s.pos[ops[0].f], ops[0].data), Writes(s', rest));
      } else {
        assert [] + Writes(s', rest) == Writes(s', rest);
      }
    }
  }

  /** After any run of files sharing a node, the file reaches as far as anything was written, and
      every byte is the one last written there; holes read as zero. */
  lemma RunIsLastWritten(s: Shared, ops: seq<Op>)
    requires Fits(s, ops)
    ensures var r, ws := Run(s, ops).content, Writes(s, ops);
            && |r| == Extent(|s.content|, ws)
            && forall i | 0 <= i < |r| :: r[i] == LastWritten(s.content, ws, i)
  {
    RunAppliesWrites(s, ops);
    AppliedIsLastWritten(s.content, Writes(s, ops));
  }

  /** What is written is read back, by this file or another. */
  lemma ReadsBack(s: Shared, w: Op, f: nat)
    requires w.Write? && Fits(s, [w]) && f < |s.pos|
    ensures var s1 := Step(s, w);
            var at := s.pos[w.f];
            var s2 := Step(s1, Seek(f, at, SeekStart));
            && s2.content[s2.pos[f]..][..|w.data|] == w.data
            && (at < |s1.content| ==> Step(s2, Read(f, |w.data|)).pos[f] == at + |w.data|)
  {
    assert w in [w];
  }

  /** Seeking by nothing stays, seeking to the end is where reading stops, k bytes before it is
      where a read of k bytes comes to it, seeks add up, and one that would come out before the
      start, or in no known way, moves nothing. */
  lemma SeeksExactly(s: Shared, f: nat, k: int, a: int, b: int)
    requires f < |s.pos| && k >= 0 && a >= 0
    ensures var size, at := |s.content|, s.pos[f];
            && Target(size, at, 0, SeekEnd) == size && Target(size, at, 0, SeekCurrent) == at
            && Target(size, at, a, SeekStart) == a && Target(size, at, b, Unknown) < 0
    ensures Step(s, Seek(f, 0, SeekCurrent)) == s
    ensures var e := Step(s, Seek(f, 0, SeekEnd));
            e == Shared(s.content, s.pos[f := |s.content|]) && forall size :: Step(e, Read(f, size)) == e
    ensures k <= |s.content| ==> Step(Step(s, Seek(f, -k, SeekEnd)), Read(f, k)) == Step(s, Seek(f, 0, SeekEnd))
    ensures a + b >= 0 ==> Step(Step(s, Seek(f, a, SeekStart)), Seek(f, b, SeekCurrent)) == Step(s, Seek(f, a + b, SeekStart))
    ensures Step(s, Seek(f, a, SeekStart)) == Shared(s.content, s.pos[f := a])
    ensures Step(s, Seek(f, -1 - a, SeekStart)) == s && (a > s.pos[f] ==> Step(s, Seek(f, -a, SeekCurrent)) == s)
    ensures (a > |s.content| ==> Step(s, Seek(f, -a, SeekEnd)) == s) && Step(s, Seek(f, b, Unknown)) == s
  {
    assert s.pos[f := s.pos[f]] == s.pos;
    assert s.pos[f := |s.content|][f := |s.content|] == s.pos[f := |s.content|];
    assert a + b >= 0 ==> s.pos[f := a][f := a + b] == s.pos[f := a + b];
    if k <= |s.content| {
      var t := Step(s, Seek(f, -k, SeekEnd));
      assert t.pos == s.pos[f := |s.content| - k];
      assert Step(t, Read(f, k)).pos == s.pos[f := |s.content|];
    }
  }

  // ---------- The run on real files ----------

  ghost predicate Opened(n: Node, fs: seq<File>) {
    (forall i | 0 <= i < |fs| :: fs[i].n == n) && forall i, j | 0 <= i < j < |fs| :: fs[i] != fs[j]
  }

  /** Node and files are in this state. */
  ghost predicate Represents(n: Node, fs: seq<File>, s: Shared)
    reads n, n.data, fs`pos
  {
    n.Valid() && n.Contents() == s.content && |s.pos| == |fs| && forall i | 0 <= i < |fs| :: fs[i].pos == s.pos[i]
  }

  method RunOn(n: Node, fs: seq<File>, ops: seq<Op>, capacity: nat, ghost s0: Shared)
    requires Represents(n, fs, s0) && !n.isDir && Opened(n, fs) && Fits(s0, ops)
    modifies n`data, n`len, n.data, fs`pos
    ensures Represents(n, fs, Run(s0, ops))
  {
    ghost var s := s0;
    assert ops[0..] == ops;
    for i := 0 to |ops|
      invariant Represents(n, fs, s) && (n.data == old(n.data) || fresh(n.data))
      invariant Fits(s, ops[i..]) && Run(s, ops[i..]) == Run(s0, ops)
    {
      var op := ops[i];
      assert ops[i..][0] == op && ops[i..][1..] == ops[i + 1..];
      Apply(n, fs, op, capacity, s);
      s := Step(s, op);
    }
  }

  method Apply(n: Node, fs: seq<File>, op: Op, capacity: nat, ghost s: Shared)
    requires Represents(n, fs, s) && !n.isDir && Opened(n, fs) && op.f < |fs|
    modifies n`data, n`len, n.data, fs`pos
    ensures Represents(n, fs, Step(s, op)) && (n.data == old(n.data) || fresh(n.data))
  {
    match op {
      case Write(f, data) =>
        var _ := fs[f].Write(data, capacity);
      case Seek(f, offset, whence) =>
        var _ := fs[f].Seek(offset, whence);
      case Read(f, size) =>
        var buffer := new Byte[size];
        var _, _ := fs[f].Read(buffer);
    }
  }
}
