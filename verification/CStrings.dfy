/** Passing any number of strings to a C function: one scoped buffer each, all alive while the body runs. */
module CStrings {
  import opened Common

  const NUL: char := '\0'

  /** `utf8CString` of ASCII text: the text and a terminator. */
  function CString(s: string): string {
    s + [NUL]
  }

  /** A pointer into an open buffer, and what it points to. */
  datatype Pointer = Pointer(buffer: nat, text: string)

  /** What happens, in order: a buffer is opened, the body runs while these buffers are alive, one is released. */
  datatype Act = Open(buffer: nat) | Body(pointers: seq<Pointer>, live: set<nat>) | Release(buffer: nat)

  /** The body: any function of the pointers that either returns or throws. */
  type Callee<!R, !E> = seq<Pointer> -> Result<R, E>

  /** The recursion of the source: one scope per string, the pointers accumulated by value. */
  function Recurse<R, E>(strings: seq<string>, index: nat, accumulated: seq<Pointer>, live: set<nat>,
                         body: Callee<R, E>): (Result<R, E>, seq<Act>)
    requires index <= |strings|
    decreases |strings| - index
  {
    if index == |strings| then (body(accumulated), [Body(accumulated, live)])
    else
      var next := accumulated + [Pointer(index, CString(strings[index]))];
      var (r, acts) := Recurse(strings, index + 1, next, live + {index}, body);
      (r, [Open(index)] + acts + [Release(index)])
  }

  function WithCStrings<R, E>(strings: seq<string>, body: Callee<R, E>): (Result<R, E>, seq<Act>) {
    Recurse(strings, 0, [], {}, body)
  }

  /** One pointer per string, in order. */
  function Pointers(strings: seq<string>, n: nat): (r: seq<Pointer>)
    requires n <= |strings|
    ensures |r| == n
  {
    seq(n, i requires 0 <= i < n => Pointer(i, CString(strings[i])))
  }

  function AllBelow(n: nat): (all: set<nat>)
    ensures forall i: nat :: i in all <==> i < n
  {
    if n == 0 then {} else AllBelow(n - 1) + {n - 1}
  }

  /** Buffers opened from `index` up. */
  function Opened(index: nat, count: nat): seq<Act>
    requires index <= count
  {
    seq(count - index, i requires 0 <= i => Open(index + i))
  }

  /** Buffers released down to `index`. */
  function Released(index: nat, count: nat): seq<Act>
    requires index <= count
  {
    seq(count - index, i requires 0 <= i < count - index => Release(count - 1 - i))
  }

  lemma {:induction false} RecurseBrackets<R, E>(strings: seq<string>, index: nat, body: Callee<R, E>)
    requires index <= |strings|
    ensures var n := |strings|;
            Recurse(strings, index, Pointers(strings, index), AllBelow(index), body)
            == (body(Pointers(strings, n)),
                Opened(index, n) + [Body(Pointers(strings, n), AllBelow(n))] + Released(index, n))
    decreases |strings| - index
  {
    var n := |strings|;
    var middle := [Body(Pointers(strings, n), AllBelow(n))];
    if index == n {
      assert Opened(index, n) + middle + Released(index, n) == middle;
    } else {
      RecurseBrackets(strings, index + 1, body);
      assert Pointers(strings, index) + [Pointer(index, CString(strings[index]))] == Pointers(strings, index + 1);
      assert AllBelow(index) + {index} == AllBelow(index + 1);
      assert [Open(index)] + Opened(index + 1, n) == Opened(index, n);
      assert Released(index + 1, n) + [Release(index)] == Released(index, n);
      assert [Open(index)] + (Opened(index + 1, n) + middle + Released(index + 1, n)) + [Release(index)]
          == Opened(index, n) + middle + Released(index, n);
    }
  }

  /**
   * Well bracketed for any list of strings: every buffer is opened in order, the body runs once with one pointer per
   * string in the original order and every buffer alive, the buffers are released in reverse order whether it
   * returned or threw, and its outcome is the outcome.
   */
  lemma WithCStringsBrackets<R, E>(strings: seq<string>, body: Callee<R, E>)
    ensures var n := |strings|;
            WithCStrings(strings, body)
            == (body(Pointers(strings, n)),
                Opened(0, n) + [Body(Pointers(strings, n), AllBelow(n))] + Released(0, n))
  {
    assert Pointers(strings, 0) == [];
    RecurseBrackets(strings, 0, body);
  }

  // ---------------------------------------------------------------- what the C side reads

  function CRead(buffer: string): string {
    if buffer == [] || buffer[0] == NUL then [] else [buffer[0]] + CRead(buffer[1..])
  }

  lemma {:induction false} CReadOfCString(s: string)
    ensures CRead(CString(s)) == s <==> NUL !in s
    ensures CRead(CString(s)) <= s
  {
    if s != [] {
      CReadOfCString(s[1..]);
      assert CString(s)[1..] == CString(s[1..]);
      assert CString(s)[0] == s[0];
      if s[0] != NUL {
        assert CRead(CString(s)) == [s[0]] + CRead(CString(s[1..]));
        assert s == [s[0]] + s[1..];
      }
    }
  }

  /** The C function reads the strings it was passed exactly when none holds a NUL; else it reads prefixes. */
  lemma StringsArriveWhole(strings: seq<string>)
    ensures (forall i | 0 <= i < |strings| :: CRead(Pointers(strings, |strings|)[i].text) == strings[i])
            <==> forall i | 0 <= i < |strings| :: NUL !in strings[i]
    ensures forall i | 0 <= i < |strings| :: CRead(Pointers(strings, |strings|)[i].text) <= strings[i]
  {
    forall i | 0 <= i < |strings|
      ensures CRead(Pointers(strings, |strings|)[i].text) == strings[i] <==> NUL !in strings[i]
      ensures CRead(Pointers(strings, |strings|)[i].text) <= strings[i]
    {
      CReadOfCString(strings[i]);
    }
  }
}
