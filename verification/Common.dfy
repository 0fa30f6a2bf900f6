/** Constants and small datatypes shared by every module of the model. */
module Common {

  /** Size of a page and of a physical frame, in bytes. */
  const PAGE_SIZE: nat := 4096

  /** One past the largest 32-bit word. */
  const WORD_LIMIT: nat := 0x1_0000_0000

  /** Top of the user stack: the start of the direct-mapped kernel segment. */
  const USERSTACK: nat := 0x8000_0000

  datatype Option<+T> = None | Some(value: T)

  /** Outcome of a kernel operation: a value, or the end of the run because an
      assertion failed, `panic` was called, or an array was indexed out of bounds. */
  datatype Result<+T> = Ok(value: T) | Panic {
    predicate IsFailure() { Panic? }

    function PropagateFailure<U>(): Result<U>
      requires Panic?
    {
      Panic
    }

    function Extract(): T
      requires Ok?
    {
      value
    }
  }

  /** Outcome of an assertion, for use as a statement before an expression. */
  datatype Assertion = Passed | Failed {
    predicate IsFailure() { Failed? }

    function PropagateFailure<U>(): Result<U>
      requires Failed?
    {
      Panic
    }
  }

  /** Ends the run unless the condition holds (`KASSERT`). */
  function Check(condition: bool): Assertion {
    if condition then Passed else Failed
  }

  /** `x & PAGE_FRAME`. */
  function PageFrame(x: nat): nat {
    x - x % PAGE_SIZE
  }

  /** Unsigned 32-bit subtraction. */
  function Sub32(a: nat, b: nat): nat {
    (a - b) % WORD_LIMIT
  }

  function Min(a: nat, b: nat): nat {
    if a <= b then a else b
  }

  function Max(a: nat, b: nat): nat {
    if a <= b then b else a
  }

  /** No element occurs twice. */
  ghost predicate Distinct<T>(s: seq<T>) {
    forall i, j :: 0 <= i < j < |s| ==> s[i] != s[j]
  }

  /** The sequence with its element at `k` left out. */
  function Without<T>(q: seq<T>, k: nat): (r: seq<T>)
    requires k < |q|
  {
    seq(|q| - 1, i requires 0 <= i < |q| - 1 => q[if i < k then i else i + 1])
  }

  lemma WithoutMembers<T>(q: seq<T>, k: nat)
    requires k < |q| && Distinct(q)
    ensures forall x :: x in Without(q, k) <==> x in q && x != q[k]
    ensures Distinct(Without(q, k))
  {
    var r := Without(q, k);
    forall x | x in q && x != q[k]
      ensures x in r
    {
      var i :| 0 <= i < |q| && q[i] == x;
      assert r[if i < k then i else i - 1] == x;
    }
  }
}
