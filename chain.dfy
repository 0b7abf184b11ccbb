/** The decorator chain of chain.go: an ordered list of handler
    transformers, applied so that the first one is outermost. */
module Chains {
  import opened Http

  /** `Decorator`: a function from handler to handler. */
  type Decorator = Handler -> Handler

  datatype Chain = Chain(decorators: seq<Decorator>)

  /** `NewChain(ds...)`: a chain holding a copy of `ds`, in order. */
  function NewChain(ds: seq<Decorator>): (c: Chain)
    ensures c.decorators == ds
  {
    Chain([] + ds)
  }

  /** `c.Append(ds...)`: a new chain with `ds` after `c`'s decorators;
      `c` itself is a value and stays as it was. */
  function Append(c: Chain, ds: seq<Decorator>): (c': Chain)
    ensures c'.decorators == c.decorators + ds
  {
    var copied := c.decorators[..];
    NewChain(copied + ds)
  }

  /** `ds[0](ds[1](... ds[n-1](h)))`. */
  function Compose(ds: seq<Decorator>, h: Handler): Handler
    decreases |ds|
  {
    if |ds| == 0 then h else ds[0](Compose(ds[1..], h))
  }

  /** Composing a concatenation composes its two parts. */
  lemma {:induction false} ComposeSplit(a: seq<Decorator>, b: seq<Decorator>, h: Handler)
    ensures Compose(a + b, h) == Compose(a, Compose(b, h))
    decreases |a|
  {
    if |a| > 0 {
      assert (a + b)[0] == a[0] && (a + b)[1..] == a[1..] + b;
      ComposeSplit(a[1..], b, h);
    } else {
      assert a + b == b;
    }
  }

  /** `c.Then(h)`: the reverse loop that wraps `h` by the last decorator
      first, so the first decorator ends up outermost. */
  method Then(c: Chain, h: Handler) returns (final: Handler)
    ensures final == Compose(c.decorators, h)
  {
    var ds := c.decorators;
    final := h;
    var i := |ds|;
    while i > 0
      invariant 0 <= i <= |ds|
      invariant final == Compose(ds[i..], h)
    {
      i := i - 1;
      assert ds[i..] == [ds[i]] + ds[i + 1..];
      ComposeSplit([ds[i]], ds[i + 1..], h);
      final := ds[i](final);
    }
  }

  /** `c.ThenFunc(f)`: `Then` on the function as a handler. */
  method ThenFunc(c: Chain, f: Handler) returns (final: Handler)
    ensures final == Compose(c.decorators, f)
  {
    final := Then(c, f);
  }

  /** An empty chain hands the handler back unchanged. */
  lemma EmptyChain(h: Handler)
    ensures Compose(NewChain([]).decorators, h) == h
  {
  }

  /** Appending and then finishing equals finishing with the appended
      decorators first: `c.Append(ds).Then(h) == c.Then(NewChain(ds).Then(h))`. */
  lemma AppendThen(c: Chain, ds: seq<Decorator>, h: Handler)
    ensures Compose(Append(c, ds).decorators, h) == Compose(c.decorators, Compose(NewChain(ds).decorators, h))
  {
    ComposeSplit(c.decorators, ds, h);
  }
}
