// The keyboard ring buffer of lab/zeos/io.c, and the loop of sys_read that drains it.

module RingBuffers {

  /** circ_buff_append on the abstract queue: a full buffer drops the character. */
  function Appended(s: seq<char>, c: char, capacity: nat): (r: seq<char>)
  {
    if |s| == capacity then s else s + [c]
  }

  /** Position of the first NUL, or the length: where a drain stops. */
  function UpToNul(s: seq<char>): (k: nat)
    ensures k <= |s|
    ensures '\0' !in s[..k]
    ensures k < |s| ==> s[k] == '\0'
  {
    if s == [] || s[0] == '\0' then 0
    else
      var k := 1 + UpToNul(s[1..]);
      assert s[..k] == [s[0]] + s[1..][..k - 1];
      k
  }

  lemma NoNulNoStop(s: seq<char>)
    requires '\0' !in s
    ensures UpToNul(s) == |s|
  {
  }

  class RingBuffer {
    const data: array<char>
    var head: nat     // circ_buff_head: where the next character goes
    var tail: nat     // circ_buff_tail: where the oldest character is
    var items: nat    // circ_buff_num_items
    ghost var contents: seq<char>  // oldest character first

    /** The cell i places after tail. */
    ghost function Cell(i: nat): nat
      reads this
    {
      if tail + i < data.Length then tail + i else tail + i - data.Length
    }

    ghost predicate Valid()
      reads this, data
    {
      && data.Length > 0 && items == |contents| <= data.Length && tail < data.Length
      && head == Cell(items)
      && forall i :: 0 <= i < items ==> contents[i] == data[Cell(i)]
    }

    constructor (capacity: nat)
      requires capacity > 0
      ensures Valid() && fresh(data) && data.Length == capacity && contents == []
    {
      data := new char[capacity](_ => '\0');
      head, tail, items, contents := 0, 0, 0, [];
    }

    /** circ_buff_is_full */
    method IsFull() returns (full: bool)
      requires Valid()
      ensures full <==> |contents| == data.Length
    {
      full := items == data.Length;
    }

    /** circ_buff_append */
    method Append(c: char)
      requires Valid()
      modifies this, data
      ensures Valid() && contents == Appended(old(contents), c, data.Length)
    {
      var full := IsFull();
      if full {
        return;
      }
      data[head] := c;
      head := head + 1;
      items := items + 1;
      if head == data.Length {
        head := 0;
      }
      contents := contents + [c];
    }

    /** circ_buff_read: the oldest character, or NUL from an empty buffer. */
    method Read() returns (c: char)
      requires Valid()
      modifies this
      ensures Valid()
      ensures c == if old(contents) == [] then '\0' else old(contents)[0]
      ensures contents == if old(contents) == [] then [] else old(contents)[1..]
    {
      if items == 0 {
        return '\0';
      }
      c := data[tail];
      tail := tail + 1;
      items := items - 1;
      if tail == data.Length {
        tail := 0;
      }
      contents := contents[1..];
    }

    /** The drain loop of sys_read: copy to buff until circ_buff_read returns NUL. */
    method Drain(buff: array<char>) returns (n: nat)
      requires Valid() && buff != data && buff.Length >= data.Length
      modifies this, buff
      ensures Valid() && n == UpToNul(old(contents)) && buff[..n] == old(contents)[..n]
      ensures contents == if n < |old(contents)| then old(contents)[n + 1..] else []
      ensures forall j :: n <= j < buff.Length ==> buff[j] == old(buff[j])
    {
      ghost var s := contents;
      n := 0;
      var c := Read();
      while c != '\0'
        invariant Valid() && n <= |s| <= data.Length
        invariant buff[..n] == s[..n] && '\0' !in s[..n]
        invariant if n < |s| then c == s[n] && contents == s[n + 1..] else c == '\0' && contents == []
        invariant forall j :: n <= j < buff.Length ==> buff[j] == old(buff[j])
        decreases |s| - n
      {
        buff[n] := c;
        n := n + 1;
        c := Read();
      }
      StopsAt(s, n);
    }

    /** A buffer that never received NUL is emptied, in order, into at most data.Length cells. */
    method DrainAll(buff: array<char>) returns (n: nat)
      requires Valid() && buff != data && buff.Length >= data.Length && '\0' !in contents
      modifies this, buff
      ensures Valid() && contents == []
      ensures n == |old(contents)| <= data.Length && buff[..n] == old(contents)
    {
      NoNulNoStop(contents);
      n := Drain(buff);
    }
  }

  lemma {:induction false} StopsAt(s: seq<char>, n: nat)
    requires n <= |s| && '\0' !in s[..n] && (n < |s| ==> s[n] == '\0')
    ensures UpToNul(s) == n
  {
    if n > 0 {
      assert s[0] == s[..n][0];
      assert s[..n][1..] == s[1..][..n - 1];
      StopsAt(s[1..], n - 1);
    }
  }

  // ---------- operation sequences

  datatype Op = Put(c: char) | Get

  /** The bounded queue: contents and the characters handed out so far. */
  function Fifo(s: seq<char>, out: seq<char>, ops: seq<Op>, capacity: nat): (r: (seq<char>, seq<char>))
    decreases ops
  {
    if ops == [] then (s, out)
    else match ops[0]
      case Put(c) => Fifo(Appended(s, c, capacity), out, ops[1..], capacity)
      case Get => if s == [] then Fifo(s, out, ops[1..], capacity) else Fifo(s[1..], out + [s[0]], ops[1..], capacity)
  }

  /** The characters an operation sequence gets into the buffer, in order. */
  function Accepted(s: seq<char>, ops: seq<Op>, capacity: nat): (r: seq<char>)
    decreases ops
  {
    if ops == [] then []
    else match ops[0]
      case Put(c) => (if |s| == capacity then [] else [c]) + Accepted(Appended(s, c, capacity), ops[1..], capacity)
      case Get => Accepted(if s == [] then s else s[1..], ops[1..], capacity)
  }

  /** First in, first out, over every operation sequence: nothing accepted is lost, reordered or repeated. */
  lemma {:induction false} FifoOrder(s: seq<char>, out: seq<char>, ops: seq<Op>, capacity: nat)
    requires |s| <= capacity
    ensures var r := Fifo(s, out, ops, capacity);
            r.1 + r.0 == out + s + Accepted(s, ops, capacity) && |r.0| <= capacity
    decreases ops
  {
    if ops != [] {
      match ops[0]
      case Put(c) =>
        FifoOrder(Appended(s, c, capacity), out, ops[1..], capacity);
        var a := Accepted(Appended(s, c, capacity), ops[1..], capacity);
        assert out + (s + [c]) + a == out + s + ([c] + a);
        assert [] + a == a;
      case Get =>
        if s == [] {
          FifoOrder(s, out, ops[1..], capacity);
        } else {
          FifoOrder(s[1..], out + [s[0]], ops[1..], capacity);
          assert out + [s[0]] + s[1..] == out + s;
        }
    }
  }

  /** Running an operation sequence on the ring buffer is running it on the bounded queue. */
  method RunOps(ring: RingBuffer, ops: seq<Op>) returns (out: seq<char>)
    requires ring.Valid()
    modifies ring, ring.data
    ensures ring.Valid() && (ring.contents, out) == Fifo(old(ring.contents), [], ops, ring.data.Length)
  {
    ghost var goal := Fifo(ring.contents, [], ops, ring.data.Length);
    out := [];
    for i := 0 to |ops|
      invariant ring.Valid()
      invariant Fifo(ring.contents, out, ops[i..], ring.data.Length) == goal
    {
      match ops[i]
      case Put(c) =>
        ring.Append(c);
      case Get =>
        var had := ring.items > 0;
        var c := ring.Read();
        if had {
          out := out + [c];
        }
    }
  }
}
