/** Types and constants shared by the models: results, errno values and page geometry. */
module Common {

  datatype Option<+T> = None | Some(value: T)

  /** A kernel call either yields a value or a positive errno. */
  datatype Result<+T> = Ok(value: T) | Err(errno: int)

  const ENOENT := 2
  const ESRCH := 3
  const ENOMEM := 12
  const EBUSY := 16
  const EEXIST := 17
  const EXDEV := 18
  const ENOTDIR := 20
  const EISDIR := 21
  const EINVAL := 22
  const EROFS := 30
  const ENOTEMPTY := 39

  const PAGE_SIZE := 4096

  /** One past the largest machine word. */
  const USIZE_LIMIT := 0x1_0000_0000_0000_0000

  /** Exclusive upper bound of the lower canonical half. */
  const USER_SPACE_END := 0x8000_0000_0000

  /** Cutting off the last element commutes with cutting elsewhere. */
  lemma CutLast<T>(p: seq<T>, k: nat)
    requires k < |p|
    ensures k < |p| - 1 ==> p[..|p| - 1][..k] == p[..k] && p[k + 1..] == p[..|p| - 1][k + 1..] + [p[|p| - 1]]
    ensures p == p[..|p| - 1] + [p[|p| - 1]]
  {
  }

  lemma RemoveSize<K, V>(m: map<K, V>, k: K)
    ensures |m - {k}| == if k in m then |m| - 1 else |m|
  {
    assert (m - {k}).Keys == m.Keys - {k};
    assert |(m - {k}).Keys| == |m - {k}|;
    assert |m.Keys| == |m|;
  }

  lemma AddSize<K, V>(m: map<K, V>, k: K, v: V)
    requires k !in m
    ensures |m[k := v]| == |m| + 1
  {
    assert m[k := v].Keys == m.Keys + {k};
    assert |m.Keys| == |m|;
  }
}
