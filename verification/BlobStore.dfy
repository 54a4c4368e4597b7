/** `blob/lib.rs`: blobs in a file store, each at a path made from the hash of its bytes. */
module BlobStores {
  import opened Domain
  import opened Words

  /** The components of a path below the root. */
  type Path = seq<string>

  type Files = map<Path, Bytes>

  /** BLAKE3 in hex, whose internals are not modelled. */
  type Digest = Bytes -> string

  /** Two characters, two more, and the rest, or the whole hash again when nothing is left. */
  function PathForHash(hash: string): Path {
    var n := if |hash| < 2 then |hash| else 2;
    var a, b := hash[..n], hash[n..];
    var c, rest := if |b| >= 2 then b[..2] else b, if |b| >= 2 then b[2..] else "";
    [a, c, if rest == "" then hash else rest]
  }

  lemma DoublingShares(h: string)
    requires |h| == 4
    ensures PathForHash(h) == PathForHash(h + h)
  {
    var b := (h + h)[2..];
    assert (h + h)[..2] == h[..2];
    assert b[..2] == h[2..];
    assert b[2..] == h;
    assert h[2..][..2] == h[2..] && h[2..][2..] == "";
  }

  lemma SamePath(h: string, k: string)
    requires PathForHash(h) == PathForHash(k) && |h| <= |k|
    ensures h == k || (|h| == 4 && k == h + h)
  {
    var p := PathForHash(h);
    PathParts(h);
    PathParts(k);
    assert |h| <= 4 < |k| ==> p[0] + p[1] == h && k == h + p[2];
  }

  /** The split loses nothing, except that a four-character hash shares its file with its own doubling. */
  lemma SamePathIff(h: string, k: string)
    ensures PathForHash(h) == PathForHash(k) <==>
            h == k || (|h| == 4 && k == h + h) || (|k| == 4 && h == k + k)
  {
    if PathForHash(h) == PathForHash(k) {
      if |h| <= |k| {
        SamePath(h, k);
      } else {
        SamePath(k, h);
      }
    } else if |h| == 4 {
      DoublingShares(h);
    }
    if |k| == 4 {
      DoublingShares(k);
    }
  }

  lemma PathParts(h: string)
    ensures var p := PathForHash(h);
            && |p| == 3
            && (|h| > 4 ==> p[0] == h[..2] && p[1] == h[2..4] && p[2] == h[4..] && h == p[0] + p[1] + p[2])
            && (|h| <= 4 ==> p[2] == h && h == p[0] + p[1])
            && (|h| < 4 ==> |p[0] + p[1]| < 4)
  {
    if |h| > 4 {
      assert h[2..][..2] == h[2..4] && h[2..][2..] == h[4..];
    }
  }

  // ----- the store -----

  function Stored(files: Files, digest: Digest, data: Bytes): Files {
    var path := PathForHash(digest(data));
    if path in files then files else files[path := data]
  }

  function Load(files: Files, hash: string): Option<Bytes> {
    var path := PathForHash(hash);
    if path in files then Some(files[path]) else None
  }

  /** Every file lies at the path of its own hash. */
  ghost predicate Addressed(files: Files, digest: Digest) {
    forall path :: path in files ==> path == PathForHash(digest(files[path]))
  }

  /** No two byte strings share a hash. (No fixed length admits this, so only a lower bound on the length is used.) */
  ghost predicate CollisionFree(digest: Digest) {
    && (forall a, b :: digest(a) == digest(b) ==> a == b)
    && (forall a :: |digest(a)| >= 64)
  }

  lemma StoredStaysAddressed(files: Files, digest: Digest, data: Bytes)
    requires Addressed(files, digest)
    ensures Addressed(Stored(files, digest, data), digest)
  {
  }

  /** A load returns exactly the bytes with that hash. */
  lemma LoadIsExact(files: Files, digest: Digest, data: Bytes)
    requires Addressed(files, digest) && CollisionFree(digest)
    ensures Load(files, digest(data)).Some? ==> Load(files, digest(data)) == Some(data)
  {
    var path := PathForHash(digest(data));
    if path in files {
      SamePathIff(digest(files[path]), digest(data));
    }
  }

  /** What was stored can be loaded, and storing never changes what another hash loads. */
  lemma StoreThenLoad(files: Files, digest: Digest, data: Bytes, hash: string)
    requires Addressed(files, digest) && CollisionFree(digest)
    ensures Load(Stored(files, digest, data), digest(data)) == Some(data)
    ensures Load(files, hash).Some? ==> Load(Stored(files, digest, data), hash) == Load(files, hash)
  {
    StoredStaysAddressed(files, digest, data);
    LoadIsExact(Stored(files, digest, data), digest, data);
  }

  class BlobStore {
    var files: Files
    const digest: Digest

    constructor (digest: Digest)
      ensures files == map[] && this.digest == digest && Addressed(files, digest)
    {
      files, this.digest := map[], digest;
    }

    method Put(data: Bytes) returns (hash: string, size: nat)
      modifies this
      ensures files == Stored(old(files), digest, data)
      ensures hash == digest(data) && size == |data|
    {
      hash := digest(data);
      var path := PathForHash(hash);
      if path !in files {
        files := files[path := data];
      }
      size := |data|;
    }

    method Get(hash: string) returns (r: Result<Bytes>)
      ensures r == match Load(files, hash) case Some(data) => Ok(data) case None => Err(NotFound)
      ensures Addressed(files, digest) && r.Ok? ==> PathForHash(digest(r.value)) == PathForHash(hash)
    {
      var path := PathForHash(hash);
      if path in files {
        return Ok(files[path]);
      }
      r := Err(NotFound);
    }
  }
}
