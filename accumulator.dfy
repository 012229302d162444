/** `get_response`: the body filter is handed a response a few buffers at a
    time and copies them into one growing buffer held in the request's
    context, until the buffer that ends the response arrives. In suppress
    mode (a subrequest, whose body must not reach the client) every
    buffer it consumed is overwritten with a lone NUL byte. */
module Accumulator {
  import opened Base

  /** One buffer of an nginx chain: its bytes (`pos` to `last`) and whether
      it is the last buffer of the response (`last_in_chain`). */
  datatype Fragment = Fragment(bytes: seq<byte>, lastInChain: bool)

  /** All bytes of a chain, in order. */
  function ChainBytes(chain: seq<Fragment>): seq<byte>
    decreases |chain|
  {
    if |chain| == 0 then [] else ChainBytes(chain[..|chain| - 1]) + chain[|chain| - 1].bytes
  }

  /** Only the final buffer of a chain may end the response, which is what
      `last_in_chain` means to nginx. */
  predicate WellFormed(chain: seq<Fragment>) {
    forall i :: 0 <= i < |chain| - 1 ==> !chain[i].lastInChain
  }

  predicate EndsResponse(chain: seq<Fragment>) {
    |chain| > 0 && chain[|chain| - 1].lastInChain
  }

  /** The chain as nginx passes it on: untouched when sending, every
      buffer reduced to the string `"\0"` (one byte) when suppressing. */
  function Blanked(chain: seq<Fragment>, send: bool): (r: seq<Fragment>)
    ensures |r| == |chain|
  {
    if send then chain else seq(|chain|, i requires 0 <= i < |chain| => Fragment([0], chain[i].lastInChain))
  }

  function Max(a: nat, b: nat): nat {
    if a > b then a else b
  }

  /** The context of one request: the buffer (`response`, allocated with
      one byte more than `capacity`), the write position `end`, and the
      number of bytes received so far. `contents` is the body received so
      far, for the proofs. */
  class ResponseBuffer {
    var response: array?<byte>
    var end: nat
    var size: nat
    var capacity: nat
    ghost var contents: seq<byte>

    ghost predicate Valid()
      reads this, response
    {
      size == |contents| && end == size &&
      (response == null ==> capacity == 0 && size == 0) &&
      (response != null ==> response.Length == capacity + 1 && size <= capacity && response[..size] == contents)
    }

    /** The context the header filter sets up for an HTML page: room for
        the announced length, or for 1000 bytes when none is announced. */
    constructor ForPage(contentLength: int)
      ensures Valid() && contents == [] && fresh(response)
      ensures capacity == (if contentLength <= 0 then 1000 else contentLength)
    {
      capacity := if contentLength <= 0 then 1000 else contentLength;
      size := 0;
      end := 0;
      contents := [];
      response := new byte[if contentLength <= 0 then 1001 else contentLength + 1](_ => 0);
    }

    /** The zeroed context of every other response: no buffer at all. */
    constructor Zeroed()
      ensures Valid() && contents == [] && response == null && capacity == 0
    {
      response := null;
      end := 0;
      size := 0;
      capacity := 0;
      contents := [];
    }

    /** One call of `get_response`. The size grows by the bytes of the
        chain; a buffer too small is replaced by one of twice the capacity,
        or of the new size when that is more, holding the old bytes as its
        prefix. When the chain ends the response, the result is a fresh
        copy of the whole body and its terminator. A context that has no
        buffer yet gets one even when the body is empty. */
    method GetResponse(chain: seq<Fragment>, send: bool) returns (r: Option<seq<byte>>, out: seq<Fragment>)
      requires Valid() && WellFormed(chain)
      modifies this, response
      ensures Valid() && response != null
      ensures contents == old(contents) + ChainBytes(chain)
      ensures size == old(size) + |ChainBytes(chain)|
      ensures old(response) != null && size <= old(capacity) ==>
        response == old(response) && capacity == old(capacity)
      ensures old(response) == null || size > old(capacity) ==>
        fresh(response) && capacity == Max(2 * old(capacity), size)
      ensures EndsResponse(chain) ==> r == Some(contents + [0])
      ensures EndsResponse(chain) ==> |r.value| == size + 1 && r.value[..size] == contents
      ensures !EndsResponse(chain) ==> r == None
      ensures out == Blanked(chain, send)
    {
      var added := ChainLength(chain);
      ghost var before := contents;
      size := size + added;
      if size > capacity || response == null {
        Grow(size - added, before);
      }
      assert ChainBytes([]) == [];
      r, out := CopyChain(chain, send, before, added);
      contents := before + ChainBytes(chain);
    }

    /** The second loop: each fragment copied in turn and, in suppress
        mode, blanked; the terminator and the copy of the whole body once
        the fragment that ends the response is reached. */
    method CopyChain(chain: seq<Fragment>, send: bool, ghost before: seq<byte>, ghost added: nat)
      returns (r: Option<seq<byte>>, out: seq<Fragment>)
      requires Valid'(before, [], added) && WellFormed(chain) && added == |ChainBytes(chain)|
      modifies this, response
      ensures response == old(response) && capacity == old(capacity) && size == old(size) && contents == old(contents)
      ensures response.Length == capacity + 1 && size <= capacity
      ensures end == size && response[..size] == before + ChainBytes(chain)
      ensures EndsResponse(chain) ==> r == Some(before + ChainBytes(chain) + [0])
      ensures !EndsResponse(chain) ==> r == None
      ensures out == Blanked(chain, send)
    {
      out := [];
      for i := 0 to |chain|
        invariant Valid'(before, chain[..i], added)
        invariant response == old(response) && capacity == old(capacity) && size == old(size) && contents == old(contents)
        invariant forall k :: 0 <= k < i ==> !chain[k].lastInChain
        invariant out == Blanked(chain[..i], send)
      {
        CopyFragment(chain, i, before, added);
        assert chain[..i + 1][..i] == chain[..i];
        out := out + (if send then [chain[i]] else [Fragment([0], chain[i].lastInChain)]);
        assert out == Blanked(chain[..i + 1], send);
        if chain[i].lastInChain {
          assert chain[..i + 1] == chain;
          var whole := Terminate();
          return Some(whole), out;
        }
      }
      assert chain[..|chain|] == chain;
      return None, out;
    }

    /** One pass of the second loop: fragment `i` is copied after the ones
        before it. */
    method CopyFragment(chain: seq<Fragment>, i: nat, ghost before: seq<byte>, ghost added: nat)
      requires i < |chain| && Valid'(before, chain[..i], added) && added == |ChainBytes(chain)|
      modifies this, response
      ensures Valid'(before, chain[..i + 1], added)
      ensures response == old(response) && capacity == old(capacity) && size == old(size) && contents == old(contents)
    {
      assert chain[..i + 1][..i] == chain[..i];
      ChainBytesPrefix(chain, i + 1);
      assert ChainBytes(chain[..i + 1]) == ChainBytes(chain[..i]) + chain[i].bytes;
      CopyBytes(chain[i].bytes);
      assert response[..end] == before + ChainBytes(chain[..i + 1]);
    }

    /** The terminator written at `end`, and the copy of the body with it. */
    method Terminate() returns (whole: seq<byte>)
      requires response != null && end == size < response.Length
      modifies response
      ensures response[..size] == old(response[..size]) && whole == response[..size] + [0]
    {
      ghost var body := response[..size];
      response[end] := 0;
      assert response[..size] == body;
      assert response[..size + 1] == body + [0];
      whole := response[..size + 1];
    }

    /** The state between the copies: the first fragments are in place. */
    ghost predicate Valid'(before: seq<byte>, done: seq<Fragment>, added: nat)
      reads this, response
    {
      response != null && response.Length == capacity + 1 && size <= capacity &&
      size == |before| + added && end == |before| + |ChainBytes(done)| <= size &&
      response[..end] == before + ChainBytes(done)
    }

    /** The first loop: the number of bytes in the chain. */
    static method ChainLength(chain: seq<Fragment>) returns (n: nat)
      ensures n == |ChainBytes(chain)|
    {
      n := 0;
      for i := 0 to |chain|
        invariant n == |ChainBytes(chain[..i])|
      {
        assert chain[..i + 1][..i] == chain[..i];
        n := n + |chain[i].bytes|;
      }
      assert chain[..|chain|] == chain;
    }

    /** The reallocation: a zeroed buffer of the new capacity, with the
        bytes received before this call copied to its start. */
    method Grow(keep: nat, ghost prefix: seq<byte>)
      requires |prefix| == keep <= size
      requires keep > 0 ==> response != null && response.Length > keep && response[..keep] == prefix
      modifies this
      ensures size == old(size) && contents == old(contents)
      ensures fresh(response) && capacity == Max(2 * old(capacity), size)
      ensures response.Length == capacity + 1 && size <= capacity && response[..keep] == prefix && end == keep
    {
      capacity := Max(2 * capacity, size);
      var grown := new byte[capacity + 1](_ => 0);
      var k := 0;
      while k < keep
        invariant 0 <= k <= keep && grown.Length == capacity + 1 && keep <= size <= capacity
        invariant capacity == Max(2 * old(capacity), size) && size == old(size) && contents == old(contents)
        invariant response == old(response) && end == old(end)
        invariant grown[..k] == prefix[..k]
      {
        assert response[k] == prefix[k];
        grown[k] := response[k];
        k := k + 1;
      }
      response := grown;
      end := keep;
    }

    /** `ngx_copy` of one fragment to the write position, which moves past it. */
    method CopyBytes(bytes: seq<byte>)
      requires response != null && end + |bytes| < response.Length
      modifies this, response
      ensures response == old(response) && end == old(end) + |bytes|
      ensures response[..end] == old(response[..end]) + bytes
      ensures size == old(size) && capacity == old(capacity) && contents == old(contents)
    {
      var j := 0;
      ghost var start := response[..end];
      while j < |bytes|
        invariant 0 <= j <= |bytes| && response == old(response)
        invariant end == old(end) + j && size == old(size) && capacity == old(capacity) && contents == old(contents)
        invariant response[..end] == start + bytes[..j]
      {
        response[end] := bytes[j];
        assert bytes[..j + 1] == bytes[..j] + [bytes[j]];
        end := end + 1;
        j := j + 1;
      }
      assert bytes[..|bytes|] == bytes;
    }
  }

  /** The bytes of a chain's prefix are no more than the chain's. */
  lemma {:induction false} ChainBytesPrefix(chain: seq<Fragment>, i: nat)
    requires i <= |chain|
    ensures |ChainBytes(chain[..i])| <= |ChainBytes(chain)|
    decreases |chain| - i
  {
    if i < |chain| {
      ChainBytesPrefix(chain, i + 1);
      assert chain[..i + 1][..i] == chain[..i];
    } else {
      assert chain[..i] == chain;
    }
  }

  // ---------------------------------------------------------------------
  // The allocation test as the source writes it

  /** What a context holds before a call: whether it has a buffer, the bytes
      received and the capacity. */
  datatype Store = Store(hasBuffer: bool, size: nat, capacity: nat)

  /** The growth step of `get_response` as written: a new buffer only when
      the new size exceeds the capacity. */
  function GrowAsWritten(s: Store, added: nat): (r: Store)
    ensures r.size == s.size + added
    ensures r.hasBuffer <==> s.hasBuffer || s.size + added > s.capacity
  {
    if s.size + added > s.capacity then Store(true, s.size + added, Max(2 * s.capacity, s.size + added))
    else s.(size := s.size + added)
  }

  /** A response other than an HTML page starts from a zeroed context. When
      its whole body is empty (a file of zero bytes), the growth step
      allocates nothing, so the terminator written at `end` once the last
      buffer arrives is written through NULL. */
  lemma EmptyBodyHasNoBuffer()
    ensures !GrowAsWritten(Store(false, 0, 0), 0).hasBuffer
  {
  }

  /** The growth step that `ResponseBuffer.GetResponse` uses: a context
      without a buffer gets one too, so the terminator always has a byte
      to go to. */
  function GrowCorrected(s: Store, added: nat): (r: Store)
    ensures r.size == s.size + added && r.hasBuffer
    ensures r.size <= r.capacity
    ensures s.hasBuffer && s.size + added <= s.capacity ==> r == s.(size := s.size + added)
  {
    if s.size + added > s.capacity || !s.hasBuffer then Store(true, s.size + added, Max(2 * s.capacity, s.size + added))
    else s.(size := s.size + added)
  }
}
