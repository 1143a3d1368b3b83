/** `os.path.splitext` as the POSIX implementation of Python's `os.path`
    defines it (separator '/', no alternative separator). */
module PosixPath {
  import opened Text

  predicate AllDots(s: string) {
    forall i :: 0 <= i < |s| ==> s[i] == '.'
  }

  /** The text after the last '/'. */
  function LastComponent(p: string): (c: string) {
    p[RFind(p, '/') + 1..]
  }

  /** Whether `p` has an extension, and where it starts: at the last '.'
      of the last component, provided some character of the component
      before that dot is not a dot. */
  function ExtensionStart(p: string): (i: int)
    ensures -1 <= i < |p|
    ensures i >= 0 ==> p[i] == '.'
    ensures i == -1 ==> forall j, k :: RFind(p, '/') < j < k < |p| && p[k] == '.' ==> p[j] == '.'
  {
    var sepIndex := RFind(p, '/');
    var dotIndex := RFind(p, '.');
    if dotIndex > sepIndex && !AllDots(p[sepIndex + 1..dotIndex]) then dotIndex
    else
      NoExtensionAllDots(p, sepIndex, dotIndex);
      -1
  }

  /** Without an extension, every character of the last component that
      comes before one of its dots is itself a dot. */
  lemma NoExtensionAllDots(p: string, sepIndex: int, dotIndex: int)
    requires sepIndex == RFind(p, '/') && dotIndex == RFind(p, '.')
    requires dotIndex <= sepIndex || AllDots(p[sepIndex + 1..dotIndex])
    ensures forall j, k :: sepIndex < j < k < |p| && p[k] == '.' ==> p[j] == '.'
  {
    forall j, k | sepIndex < j < k < |p| && p[k] == '.' ensures p[j] == '.' {
      assert k <= dotIndex;
      assert p[sepIndex + 1..dotIndex][j - sepIndex - 1] == p[j];
    }
  }

  /** `os.path.splitext(p)`: the root and the extension, which is empty
      when the last component has no dot after a non-dot character
      ("name", ".bashrc", "..x" have none). */
  function SplitExt(p: string): (r: (string, string))
    ensures r.0 + r.1 == p
    ensures r.1 == [] || (r.1[0] == '.' && '.' !in r.1[1..] && '/' !in r.1)
    ensures r.1 != [] ==> !AllDots(LastComponent(r.0))
    ensures r.1 == [] ==> forall j, k :: RFind(p, '/') < j < k < |p| && p[k] == '.' ==> p[j] == '.'
  {
    var i := ExtensionStart(p);
    if i >= 0 then
      ExtensionFacts(p);
      (p[..i], p[i..])
    else (p, [])
  }

  /** The extension found holds no further dot and no slash, and the root's last component is not all dots. */
  lemma ExtensionFacts(p: string)
    requires ExtensionStart(p) >= 0
    ensures var i := ExtensionStart(p);
      && '.' !in p[i + 1..] && '/' !in p[i..]
      && !AllDots(LastComponent(p[..i]))
  {
    var sepIndex := RFind(p, '/');
    var i := RFind(p, '.');
    var ext := p[i..];
    assert '.' !in ext[1..] by {
      forall k | 1 <= k < |ext| ensures ext[k] != '.' {
        assert ext[k] == p[i + k];
      }
    }
    assert '/' !in ext by {
      forall k | 0 <= k < |ext| ensures ext[k] != '/' {
        assert ext[k] == p[i + k];
      }
    }
    assert ext[1..] == p[i + 1..];
    RFindPrefix(p, '/', i);
    assert LastComponent(p[..i]) == p[sepIndex + 1..i];
  }

  /** Cutting the string after its last `c` keeps that last `c`. */
  lemma RFindPrefix(s: string, c: char, k: nat)
    requires RFind(s, c) < k <= |s|
    ensures RFind(s[..k], c) == RFind(s, c)
  {
  }
}
