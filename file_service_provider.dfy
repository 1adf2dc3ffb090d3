/**
 * The file-based tag service: a process-wide index from tag id to tag, shared
 * by every provider, seeded once from the imported tags and written back after
 * each successful change when the provider is persistent.
 */
module TagsFile {
  import Sorting
  import opened Tags

  /**
   * The static `index` of the provider class. `initialized` is false while the
   * index is still null; `exports` records every write of the index's values
   * to the backing file, oldest first.
   */
  class TagIndex {
    var entries: map<string, Tag>
    var initialized: bool
    ghost var exports: seq<map<string, Tag>>

    /** Before initialization the index is empty; after it every tag sits under its own id. */
    ghost predicate Valid()
      reads this
    {
      && (!initialized ==> entries == map[])
      && (initialized ==> KeysAreIds(entries))
    }

    /** The index as it is when the class is loaded: null, never exported. */
    constructor ()
      ensures Valid()
      ensures !initialized && entries == map[] && exports == []
    {
      entries := map[];
      initialized := false;
      exports := [];
    }
  }

  class FileServiceProvider {
    const store: TagIndex
    const isPersistent: bool

    ghost predicate Valid()
      reads this, store
    {
      store.Valid() && store.initialized
    }

    /**
     * Builds a provider over the shared index. The first provider seeds the
     * index from the imported tags; later ones leave it as it is.
     */
    constructor (store: TagIndex, imported: seq<Tag>, persistent: bool)
      requires store.Valid()
      modifies store
      ensures this.store == store && isPersistent == persistent
      ensures Valid()
      ensures old(store.initialized) ==> store.entries == old(store.entries)
      ensures !old(store.initialized) ==> store.entries == Imported(imported)
      ensures store.exports == old(store.exports)
    {
      this.store := store;
      isPersistent := persistent;
      new;
      if !store.initialized {
        store.entries := map[];
        for i := 0 to |imported|
          invariant store.entries == Imported(imported[..i])
          invariant store.exports == old(store.exports)
        {
          assert imported[..i + 1][..i] == imported[..i];
          store.entries := store.entries[imported[i].id := imported[i]];
        }
        assert imported[..|imported|] == imported;
        ImportedKeysAreIds(imported);
        store.initialized := true;
      }
    }

    /** `exportJson(index.values())`: the index's current values are written to the backing file. */
    ghost method ExportJson()
      modifies store`exports
      ensures store.exports == old(store.exports) + [store.entries]
    {
      store.exports := store.exports + [store.entries];
    }

    /** A copy of the index's values, in the hash map's order: `new ArrayList<>(index.values())`. */
    method Values() returns (tags: seq<Tag>)
      requires Valid()
      ensures multiset(tags) == multiset(ValuesSeq(store.entries))
    {
      tags := [];
      var rest := store.entries;
      while rest != map[]
        invariant multiset(tags) + multiset(ValuesSeq(rest)) == multiset(ValuesSeq(store.entries))
        decreases |rest|
      {
        var k :| k in rest;
        ValuesSeqRemove(rest, k);
        tags := tags + [rest[k]];
        rest := rest - {k};
      }
      assert |rest| == 0;
    }

    /**
     * All tags sorted by the comparator `le`, cut to the indices
     * `position <= i < position + size`.
     */
    method List(le: (Tag, Tag) -> bool, position: int, size: int) returns (selection: seq<Tag>)
      requires Valid() && Sorting.TotalPreorder(le) && TiesShareId(le)
      ensures selection == Window(Ordered(le, store.entries), position, size)
    {
      var tags := Values();
      // Collections.sort(tags, comparator)
      SortedCopyIsOrdered(le, store.entries, tags);
      tags := Sorting.Sort(le, tags);
      selection := [];
      var i := 0;
      while i < |tags|
        invariant 0 <= i <= |tags|
        invariant selection == Window(tags[..i], position, size)
      {
        WindowStep(tags, i, position, size);
        if i >= position && i < position + size {
          selection := selection + [tags[i]];
        }
        i := i + 1;
      }
      assert tags[..i] == tags;
    }

    /**
     * Stores a new tag under a fresh id. A client-supplied id is refused: as a
     * duplicate when it is already taken, as invalid otherwise; these checks
     * come before the check for a title.
     */
    method Create(tag: Tag, freshId: string, now: int, principal: string) returns (result: Result<Tag>)
      requires Valid()
      requires freshId != "" && freshId !in store.entries
      modifies store
      ensures Valid()
      ensures tag.id != "" && tag.id in old(store.entries) ==> result == Err(Duplicate)
      ensures tag.id != "" && tag.id !in old(store.entries) ==> result == Err(Validation)
      ensures tag.id == "" && tag.title == "" ==> result == Err(Validation)
      ensures result.Ok? <==> tag.id == "" && tag.title != ""
      ensures result.Ok? ==>
        && result.value == tag.(id := freshId, createdAt := now, createdBy := principal,
                                modifiedAt := now, modifiedBy := principal)
        && store.entries == old(store.entries)[freshId := result.value]
        && store.entries.Keys == old(store.entries.Keys) + {freshId}
        && |store.entries| == |old(store.entries)| + 1
        && store.exports == old(store.exports) + if isPersistent then [store.entries] else []
      ensures result.Err? ==> store.entries == old(store.entries) && store.exports == old(store.exports)
    {
      if tag.id != "" {
        if tag.id in store.entries {
          return Err(Duplicate);
        } else {
          return Err(Validation);
        }
      }
      if tag.title == "" {
        return Err(Validation);
      }
      var stored := tag.(id := freshId, createdAt := now, createdBy := principal,
                         modifiedAt := now, modifiedBy := principal);
      store.entries := store.entries[freshId := stored];
      if isPersistent {
        ExportJson();
      }
      return Ok(stored);
    }

    /** The tag stored under `id`, or not found. */
    method Read(id: string) returns (result: Result<Tag>)
      requires Valid()
      ensures result.Ok? <==> id in store.entries
      ensures result.Ok? ==> result.value == store.entries[id] && result.value.id == id
      ensures result.Err? ==> result.error == NotFound
    {
      if id !in store.entries {
        return Err(NotFound);
      }
      return Ok(store.entries[id]);
    }

    /**
     * Replaces the title and description of the tag stored under `id` and
     * stamps the modification; id and creation stamp stay as stored. The
     * title is not checked here.
     */
    method Update(id: string, tag: Tag, now: int, principal: string) returns (result: Result<Tag>)
      requires Valid()
      modifies store
      ensures Valid()
      ensures result.Ok? <==> id in old(store.entries)
      ensures result.Err? ==>
        && result.error == NotFound
        && store.entries == old(store.entries) && store.exports == old(store.exports)
      ensures result.Ok? ==>
        && result.value == old(store.entries)[id].(title := tag.title, description := tag.description,
                                                   modifiedAt := now, modifiedBy := principal)
        && store.entries == old(store.entries)[id := result.value]
        && result.value.id == id
        && result.value.createdAt == old(store.entries)[id].createdAt
        && result.value.createdBy == old(store.entries)[id].createdBy
        && store.entries.Keys == old(store.entries.Keys)
        && store.exports == old(store.exports) + if isPersistent then [store.entries] else []
    {
      if id !in store.entries {
        return Err(NotFound);
      }
      var current := store.entries[id];
      // client-supplied createdAt / createdBy only raise a warning
      var updated := current.(title := tag.title, description := tag.description,
                              modifiedAt := now, modifiedBy := principal);
      store.entries := store.entries[id := updated];
      if isPersistent {
        ExportJson();
      }
      return Ok(updated);
    }

    /** Removes the tag stored under `id`, or reports it not found. */
    method Delete(id: string) returns (status: Status)
      requires Valid()
      modifies store
      ensures Valid()
      ensures status.Done? <==> id in old(store.entries)
      ensures status.Failed? ==>
        && status.error == NotFound
        && store.entries == old(store.entries) && store.exports == old(store.exports)
      ensures status.Done? ==>
        && store.entries == old(store.entries) - {id}
        && store.entries.Keys == old(store.entries.Keys) - {id}
        && |store.entries| == |old(store.entries)| - 1
        && store.exports == old(store.exports) + if isPersistent then [store.entries] else []
    {
      if id !in store.entries {
        return Failed(NotFound);
      }
      var removed := id in store.entries;
      store.entries := store.entries - {id};
      if !removed {
        assert false;
        return Failed(InternalServerError);
      }
      if isPersistent {
        ExportJson();
      }
      return Done;
    }
  }

  /**
   * A client of the store. A tag created without an id reads back as stored,
   * with the given title and description; creating it again under that id is
   * a duplicate; once deleted it is not found and cannot be deleted twice,
   * and the index is back to what it was.
   */
  method CreateReadDelete(p: FileServiceProvider, title: string, description: string,
                          freshId: string, now: int, principal: string, otherId: string)
    returns (created: Result<Tag>, readBack: Result<Tag>, again: Result<Tag>,
             deleted: Status, gone: Result<Tag>, twice: Status)
    requires p.Valid() && title != ""
    requires freshId != "" && freshId !in p.store.entries
    requires otherId != "" && otherId != freshId && otherId !in p.store.entries
    modifies p.store
    ensures created.Ok? && created.value.id == freshId
    ensures created.value.title == title && created.value.description == description
    ensures readBack == created && again == Err(Duplicate)
    ensures deleted == Done && gone == Err(NotFound) && twice == Failed(NotFound)
    ensures p.Valid() && p.store.entries == old(p.store.entries)
  {
    created := p.Create(Tag("", title, description, 0, "", 0, ""), freshId, now, principal);
    readBack := p.Read(freshId);
    again := p.Create(Tag(freshId, title, description, 0, "", 0, ""), otherId, now, principal);
    deleted := p.Delete(freshId);
    gone := p.Read(freshId);
    twice := p.Delete(freshId);
  }
}
