/**
 * Container names of kernels. A kernel's container is named `kernel.{lang}.{id}`; the agent
 * recognises its own containers by the `kernel.` prefix and recovers the kernel id from the
 * name in two ways: the utility helper takes the last dot-separated component and parses it
 * as a UUID, and the event monitor splits the name at its first two dots.
 */
module KernelNames {
  import opened Wrappers
  import opened Text

  const Prefix: string := "kernel."

  /** The container name given to a new kernel. */
  function KernelName(lang: string, id: string): (r: string)
    ensures |r| == |Prefix| + |lang| + 1 + |id|
  {
    Prefix + lang + "." + id
  }

  // ---------------------------------------------------------------------------
  // String helpers with Python's semantics

  /** `s.lstrip(c)`: drops every leading c. */
  function LStrip(s: string, c: char): (r: string)
    ensures |r| <= |s| && r == s[|s| - |r|..]
    ensures r == [] || r[0] != c
    ensures forall i :: 0 <= i < |s| - |r| ==> s[i] == c
  {
    if s != [] && s[0] == c then LStrip(s[1..], c) else s
  }

  /** The index of the first c in s, or |s| when there is none. */
  function FirstIndex(s: string, c: char): (n: nat)
    ensures n <= |s|
    ensures c !in s[..n]
    ensures n < |s| ==> s[n] == c
  {
    if s == [] then 0
    else if s[0] == c then 0
    else
      var k := FirstIndex(s[1..], c);
      assert s[..k + 1] == [s[0]] + s[1..][..k];
      1 + k
  }

  /** `s.split(c, maxsplit=n)`: splits at the first n occurrences of c only. */
  function SplitAtMost(s: string, c: char, n: nat): (r: seq<string>)
    ensures 1 <= |r| <= n + 1
  {
    var i := FirstIndex(s, c);
    if n == 0 || i == |s| then [s]
    else [s[..i]] + SplitAtMost(s[i + 1..], c, n - 1)
  }

  /** Where the last component starts: just after the last c, or 0 when there is no c. */
  function LastStart(s: string, c: char): (n: nat)
    ensures n <= |s|
    ensures c !in s[n..]
    ensures n > 0 ==> s[n - 1] == c
  {
    if s == [] then 0
    else if s[|s| - 1] == c then |s|
    else
      var n := LastStart(s[..|s| - 1], c);
      assert s[n..] == s[..|s| - 1][n..] + [s[|s| - 1]];
      n
  }

  /** `s.rsplit(c, ...)[-1]`: the text after the last c, or all of s when there is no c. */
  function LastComponent(s: string, c: char): string
  {
    s[LastStart(s, c)..]
  }

  // ---------------------------------------------------------------------------
  // The two readers

  /**
   * get_kernel_id_from_container on a name: leading slashes are dropped, a name without the
   * `kernel.` prefix gives None, and otherwise the last dot-separated component is parsed as
   * a UUID, None where it is not one. UUID parsing is the parameter `parseUuid`.
   */
  function KernelIdFromName<Id>(name: string, parseUuid: string -> Option<Id>): (r: Option<Id>)
    ensures r.Some? ==> StartsWith(LStrip(name, '/'), Prefix)
    ensures r.Some? ==> r == parseUuid(LastComponent(LStrip(name, '/'), '.'))
  {
    var n := LStrip(name, '/');
    if !StartsWith(n, Prefix) then None
    else parseUuid(LastComponent(n, '.'))
  }

  /** What the container monitor does with the name of a container that died. */
  datatype MonitorAction =
    | Ignore                 // not a kernel container
    | IndexError             // `split('.', maxsplit=2)[2]` has no third component
    | CleanKernel(id: string)

  function MonitorKernelId(name: string): (r: MonitorAction)
    ensures r == Ignore <==> !StartsWith(name, Prefix)
  {
    if !StartsWith(name, Prefix) then Ignore
    else
      var parts := SplitAtMost(name, '.', 2);
      if |parts| < 3 then IndexError else CleanKernel(parts[2])
  }

  // ---------------------------------------------------------------------------
  // Properties

  lemma {:induction false} FirstIndexOf(a: string, c: char, b: string)
    requires c !in a
    ensures FirstIndex(a + [c] + b, c) == |a|
  {
    if a != [] {
      assert (a + [c] + b)[1..] == a[1..] + [c] + b;
      FirstIndexOf(a[1..], c, b);
    }
  }

  lemma {:induction false} SplitAtMostOf(a: string, c: char, b: string, n: nat)
    requires c !in a && n > 0
    ensures SplitAtMost(a + [c] + b, c, n) == [a] + SplitAtMost(b, c, n - 1)
  {
    var s := a + [c] + b;
    FirstIndexOf(a, c, b);
    assert s[..|a|] == a && s[|a| + 1..] == b;
  }

  /**
   * The monitor reads back the id the agent put into the name, whatever the id contains,
   * provided the language has no dot.
   */
  lemma {:induction false} MonitorReadsKernelName(lang: string, id: string)
    requires '.' !in lang
    ensures MonitorKernelId(KernelName(lang, id)) == CleanKernel(id)
  {
    var name := KernelName(lang, id);
    assert name == "kernel" + ['.'] + (lang + ['.'] + id);
    assert StartsWith(name, Prefix);
    assert '.' !in "kernel";
    SplitAtMostOf("kernel", '.', lang + ['.'] + id, 2);
    SplitAtMostOf(lang, '.', id, 1);
  }

  /** A container whose name lacks the prefix is none of the agent's business. */
  lemma {:induction false} MonitorIgnoresOthers(name: string)
    requires !StartsWith(name, Prefix)
    ensures MonitorKernelId(name) == Ignore
  {
  }

  /** A kernel name with a single dot, `kernel.x`, makes the monitor's index lookup fail. */
  lemma {:induction false} MonitorIndexError(rest: string)
    requires '.' !in rest
    ensures MonitorKernelId(Prefix + rest) == IndexError
  {
    var name := Prefix + rest;
    assert name == "kernel" + ['.'] + rest;
    assert '.' !in "kernel";
    SplitAtMostOf("kernel", '.', rest, 2);
    assert FirstIndex(rest, '.') == |rest|;
  }

  lemma {:induction false} LastStartOf(a: string, c: char, b: string)
    requires c !in b
    ensures LastStart(a + [c] + b, c) == |a| + 1
  {
    var s := a + [c] + b;
    if b != [] {
      assert s[..|s| - 1] == a + [c] + b[..|b| - 1];
      assert c !in b[..|b| - 1] by {
        assert forall i :: 0 <= i < |b| - 1 ==> b[..|b| - 1][i] == b[i];
      }
      LastStartOf(a, c, b[..|b| - 1]);
    }
  }

  predicate AllSlashes(p: string) {
    forall i :: 0 <= i < |p| ==> p[i] == '/'
  }

  lemma {:induction false} LStripSlashes(p: string, s: string)
    requires AllSlashes(p)
    requires s == [] || s[0] != '/'
    ensures LStrip(p + s, '/') == s
  {
    if p != [] {
      assert (p + s)[0] == '/';
      assert (p + s)[1..] == p[1..] + s;
      LStripSlashes(p[1..], s);
    }
  }

  /**
   * The helper recovers the id from the name the agent gives a kernel, with or without the
   * leading slashes Docker puts before container names, when the id has no dot.
   */
  lemma {:induction false} KernelIdFromKernelName<Id>(slashes: string, lang: string, id: string, parseUuid: string -> Option<Id>)
    requires AllSlashes(slashes)
    requires '.' !in id
    ensures KernelIdFromName(slashes + KernelName(lang, id), parseUuid) == parseUuid(id)
  {
    var name := KernelName(lang, id);
    assert LStrip(slashes + name, '/') == name by {
      LStripSlashes(slashes, name);
    }
    assert StartsWith(name, Prefix);
    assert LastComponent(name, '.') == id by {
      assert name == (Prefix + lang) + ['.'] + id;
      LastStartOf(Prefix + lang, '.', id);
    }
  }

  /** Without the `kernel.` prefix, after the leading slashes, the helper gives None. */
  lemma {:induction false} KernelIdNeedsPrefix<Id>(name: string, parseUuid: string -> Option<Id>)
    requires !StartsWith(LStrip(name, '/'), Prefix)
    ensures KernelIdFromName(name, parseUuid) == None
  {
  }

  /** With the prefix, the result is exactly the UUID parse of the last component. */
  lemma {:induction false} KernelIdIsLastComponent<Id>(name: string, parseUuid: string -> Option<Id>)
    requires StartsWith(LStrip(name, '/'), Prefix)
    ensures KernelIdFromName(name, parseUuid) == parseUuid(LastComponent(LStrip(name, '/'), '.'))
    ensures '.' !in LastComponent(LStrip(name, '/'), '.')
  {
  }
}
