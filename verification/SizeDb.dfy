/** The local_sizes and remote_sizes tables (db/sizedb.go); each statement is one step. */
module SizeDb {
  import opened Wrappers
  import opened CacheModel

  class SizeTables {
    var localSizes: map<Path, LocalFile>
    var remoteSizes: map<Path, RemoteRow>

    constructor ()
      ensures localSizes == map[] && remoteSizes == map[]
    {
      localSizes, remoteSizes := map[], map[];
    }

    /** An upsert. */
    method SetLocalSize(p: Path, size: nat, tier: nat)
      modifies this`localSizes
      ensures localSizes == old(localSizes)[p := LocalFile(size, tier)]
    {
      localSizes := localSizes[p := LocalFile(size, tier)];
    }

    /** Updates a row that exists and does nothing otherwise. */
    method UpdateLocalSizeTier(p: Path, tier: nat)
      modifies this`localSizes
      ensures localSizes.Keys == old(localSizes).Keys
      ensures forall q :: q in localSizes ==>
                localSizes[q] == if q == p then old(localSizes)[q].(tier := tier) else old(localSizes)[q]
    {
      if p in localSizes {
        localSizes := localSizes[p := localSizes[p].(tier := tier)];
      }
    }

    method DeleteLocalSize(p: Path)
      modifies this`localSizes
      ensures localSizes == old(localSizes) - {p}
    {
      localSizes := localSizes - {p};
    }

    /** Collects the unknown paths in one loop and deletes them in another. */
    method CleanLocalSizes(known: set<Path>)
      modifies this`localSizes
      ensures localSizes == Restrict(old(localSizes), known)
    {
      var toDelete: seq<Path> := [];
      var unread := localSizes.Keys;
      while unread != {}
        invariant unread <= localSizes.Keys
        invariant forall p :: p in toDelete <==> p in localSizes && p !in unread && p !in known
      {
        var fp :| fp in unread;
        if fp !in known {
          toDelete := toDelete + [fp];
        }
        unread := unread - {fp};
      }
      for i := 0 to |toDelete|
        invariant localSizes == map p | p in old(localSizes) && p !in toDelete[..i] :: old(localSizes)[p]
      {
        localSizes := localSizes - {toDelete[i]};
      }
    }

    method SetRemoteSize(p: Path, size: Option<nat>, now: int)
      modifies this`remoteSizes
      ensures remoteSizes == old(remoteSizes)[p := RemoteRow(size, now)]
    {
      remoteSizes := remoteSizes[p := RemoteRow(size, now)];
    }

    /** Deletes only the rows that record a 404. */
    method CleanRemoteSizes(cutoff: int)
      modifies this`remoteSizes
      ensures remoteSizes == CleanRemote(old(remoteSizes), cutoff)
    {
      remoteSizes := map p | p in remoteSizes && !(remoteSizes[p].size.None? && remoteSizes[p].recordedAt < cutoff)
        :: remoteSizes[p];
    }
  }
}
