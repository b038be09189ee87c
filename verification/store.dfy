/** The multi-source checker's state file (`load_prev` / `save`): an object
    `{"urls": {url: status, ...}}`, with the single-page bot's older
    `{"status": ...}` shape still accepted and read as the entry of the first
    configured page. */
module Store {
  import opened Types

  /** The key a legacy file's status is filed under: the first configured
      page, or "" when there is none. */
  function LegacyKey(urls: seq<string>): (k: string)
    ensures |urls| > 0 ==> k == urls[0]
    ensures |urls| == 0 ==> k == ""
  {
    if |urls| > 0 then urls[0] else ""
  }

  /** The file is an object in the older single-status shape. */
  predicate IsLegacy(fields: map<string, Json>) {
    "status" in fields && "urls" !in fields
  }

  /** `load_prev()` followed by the first `.get` on its result: the previous
      reading of every page, as stored. A missing file is an empty record. An
      object is read through its `"urls"` entry, or as the legacy shape, or as
      empty. The run aborts when the file is not JSON, not an object, or its
      `"urls"` entry is not an object (Python fails at the first lookup). */
  function LoadPrev(file: StoredFile, urls: seq<string>): (r: Result<map<string, Json>, StoreError>)
    ensures r.Failure? <==>
              || file.Unparsable?
              || (file.Parsed? && !file.value.JObj?)
              || (file.Parsed? && file.value.JObj? && "urls" in file.value.fields
                  && !file.value.fields["urls"].JObj?)
    ensures file.NoFile? ==> r == Success(map[])
    ensures r.Success? && file.Parsed? && IsLegacy(file.value.fields) ==>
              r.value.Keys == {LegacyKey(urls)} && r.value[LegacyKey(urls)] == file.value.fields["status"]
    ensures r.Success? && file.Parsed? && "urls" in file.value.fields ==>
              r.value == file.value.fields["urls"].fields
    ensures r.Success? && file.Parsed? && "urls" !in file.value.fields && "status" !in file.value.fields ==>
              r.value == map[]
  {
    match file
    case NoFile => Success(map[])
    case Unparsable => Failure(MalformedJson)
    case Parsed(JObj(fields)) =>
      if IsLegacy(fields) then Success(map[LegacyKey(urls) := fields["status"]])
      else if "urls" !in fields then Success(map[])
      else if fields["urls"].JObj? then Success(fields["urls"].fields)
      else Failure(UrlsNotAnObject)
    case Parsed(_) => Failure(NotAnObject)
  }

  /** `prev_statuses.get(url, "unknown")`. */
  function Lookup(prev: map<string, Json>, url: string): (v: Json)
    ensures url in prev ==> v == prev[url]
    ensures url !in prev ==> v == JStr(Name(Unknown))
  {
    if url in prev then prev[url] else JStr("unknown")
  }

  /** The readings as JSON: each status by its name. */
  function Encode(statuses: map<string, Status>): (m: map<string, Json>)
    ensures m.Keys == statuses.Keys
    ensures forall u :: u in m ==> m[u] == JStr(Name(statuses[u]))
  {
    map u | u in statuses :: JStr(Name(statuses[u]))
  }

  /** What `save` writes, for an already encoded record. */
  function SaveJson(record: map<string, Json>): (j: Json)
    ensures j.JObj? && j.fields.Keys == {"urls"}
  {
    JObj(map["urls" := JObj(record)])
  }

  /** `save(statuses)`: the readings wrapped as `{"urls": ...}`. */
  function Save(statuses: map<string, Status>): (j: Json)
    ensures j.JObj? && j.fields.Keys == {"urls"}
  {
    SaveJson(Encode(statuses))
  }

  /** Loading what `save` wrote gives back exactly the record written, whatever
      pages are configured. */
  lemma LoadSaveJson(record: map<string, Json>, urls: seq<string>)
    ensures LoadPrev(Parsed(SaveJson(record)), urls) == Success(record)
  {
  }

  /** After `save(statuses)` the next run's lookup of every page gives that
      page's reading by name, and `"unknown"` for pages not saved. */
  lemma LookupAfterSave(statuses: map<string, Status>, urls: seq<string>, url: string)
    ensures LoadPrev(Parsed(Save(statuses)), urls).Success?
    ensures Lookup(LoadPrev(Parsed(Save(statuses)), urls).value, url) ==
            JStr(Name(if url in statuses then statuses[url] else Unknown))
  {
    LoadSaveJson(Encode(statuses), urls);
  }
}
