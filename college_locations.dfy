/**
 * The campus catalog of the AR navigation app and its flattening into
 * location records (the Kotlin object `CollegeLocations`).
 *
 * Two inputs of the original are not deterministic and are parameters here:
 *  - `clock: nat -> int` is the wall clock in milliseconds; `clock(k)` is the
 *    reading taken by the k-th block conversion of one run, because every
 *    conversion reads the clock anew;
 *  - `hash: string -> int` is the string hash of a block name.
 * Coordinates are kept as the decimal text the platform renders them to.
 */
module CollegeLocations {

  datatype Option<T> = None | Some(value: T)

  /** A building on a campus, with its rendered latitude and longitude. */
  datatype Block = Block(name: string, latitude: string, longitude: string)

  /** A campus and its blocks, in declared order. */
  datatype College = College(name: string, blocks: seq<Block>)

  /** The constructor fields of a location record that the conversion fills in. */
  datatype LocationData = LocationData(
    id: int,
    name: string,
    location: string,
    azimuth: string,
    description: string,
    imgUrl: string)

  const MvgrBlocks: seq<Block> := [
    Block("Mechanical Block", "18.06035", "83.40407"),
    Block("ECE Block", "18.0601", "83.40469"),
    Block("CSE Block", "18.06094", "83.40532"),
    Block("Data Engineering Block", "18.06189", "83.40395"),
    Block("Civil Block", "18.06108", "83.40532")
  ]

  const GvpceBlocks: seq<Block> := [
    Block("Civil Block", "17.8203", "83.3428"),
    Block("Chemical Block", "17.8205", "83.3425"),
    Block("Canteen", "17.8209", "83.3418"),
    Block("EEE Block", "17.8213", "83.3415"),
    Block("ECE Block", "17.8215", "83.3412"),
    Block("CSE Block", "17.8213", "83.3411"),
    Block("Admin Block", "17.8215", "83.3413"),
    Block("IT Block", "17.8211", "83.3415"),
    Block("Mechanical Block", "17.8207", "83.3426")
  ]

  /** The predefined catalog. */
  const Colleges: seq<College> := [
    College("MVGR College", MvgrBlocks),
    College("GVPCE College", GvpceBlocks)
  ]

  // ---------------------------------------------------------------------------
  // One block to one record

  /** The display name: the block name, after "<prefix> - " unless the prefix is empty. */
  function DisplayName(prefix: string, blockName: string): (name: string)
  {
    if prefix == "" then blockName else prefix + " - " + blockName
  }

  /**
   * Converts one block; `now` is the clock reading taken for this conversion.
   * Azimuth and image URL are the same constants for every record.
   */
  function BlockToLocationData(block: Block, collegePrefix: string, now: int, hash: string -> int): (r: LocationData)
    ensures r.azimuth == "0.0" && r.imgUrl == ""
  {
    LocationData(
      id := now + hash(block.name),
      name := DisplayName(collegePrefix, block.name),
      location := block.latitude + "," + block.longitude,
      azimuth := "0.0",
      description := block.name + " at " + block.latitude + ", " + block.longitude,
      imgUrl := "")
  }

  lemma DisplayNameRule(block: Block, collegePrefix: string, now: int, hash: string -> int)
    ensures var r := BlockToLocationData(block, collegePrefix, now, hash);
      && (collegePrefix == "" ==> r.name == block.name)
      && (collegePrefix != "" ==> r.name == collegePrefix + " - " + block.name && r.name != block.name)
      && |r.name| >= |block.name| && r.name[|r.name| - |block.name|..] == block.name
  {
  }

  /** Location and description come from the block alone: the prefix never enters them. */
  lemma LocationAndDescription(block: Block, prefix1: string, prefix2: string, now: int, hash: string -> int)
    ensures var r := BlockToLocationData(block, prefix1, now, hash);
      && r.location == block.latitude + "," + block.longitude
      && r.description == block.name + " at " + block.latitude + ", " + block.longitude
      && r.description == BlockToLocationData(block, prefix2, now, hash).description
  {
  }

  /**
   * The id depends on the clock reading and the block name only: equal names
   * at one reading collide, whatever their blocks and prefixes; readings that
   * differ give different ids to equal names.
   */
  lemma IdFromClockAndName(b1: Block, p1: string, t1: int, b2: Block, p2: string, t2: int, hash: string -> int)
    requires b1.name == b2.name
    ensures BlockToLocationData(b1, p1, t1, hash).id == BlockToLocationData(b2, p2, t2, hash).id <==> t1 == t2
  {
  }

  // ---------------------------------------------------------------------------
  // Flattening the catalog

  /** The prefix used for the blocks of `college`. */
  function PrefixFor(college: College, useCollegePrefix: bool): (prefix: string)
  {
    if useCollegePrefix then college.name else ""
  }

  /** Converts `blocks` in order; the k-th conversion takes clock reading `from + k`. */
  function ConvertBlocks(blocks: seq<Block>, prefix: string, clock: nat -> int, from: nat, hash: string -> int): (records: seq<LocationData>)
  {
    seq(|blocks|, k requires 0 <= k < |blocks| => BlockToLocationData(blocks[k], prefix, clock(from + k), hash))
  }

  /** The number of blocks in `catalog`, summed over its colleges. */
  function TotalBlocks(catalog: seq<College>): (total: nat)
  {
    if catalog == [] then 0
    else TotalBlocks(catalog[..|catalog| - 1]) + |catalog[|catalog| - 1].blocks|
  }

  /** Every block of every college, college-major and block-minor. */
  function AllLocations(catalog: seq<College>, useCollegePrefix: bool, clock: nat -> int, hash: string -> int): (r: seq<LocationData>)
    ensures |r| == TotalBlocks(catalog)
  {
    if catalog == [] then []
    else
      var init := catalog[..|catalog| - 1];
      var last := catalog[|catalog| - 1];
      AllLocations(init, useCollegePrefix, clock, hash)
        + ConvertBlocks(last.blocks, PrefixFor(last, useCollegePrefix), clock, TotalBlocks(init), hash)
  }

  /** The record list built by nested loops over the colleges and their blocks. */
  method GetAllLocationsData(catalog: seq<College>, useCollegePrefix: bool, clock: nat -> int, hash: string -> int)
    returns (result: seq<LocationData>)
    ensures result == AllLocations(catalog, useCollegePrefix, clock, hash)
  {
    result := [];
    for i := 0 to |catalog|
      invariant result == AllLocations(catalog[..i], useCollegePrefix, clock, hash)
    {
      var college := catalog[i];
      ghost var before := result;
      for j := 0 to |college.blocks|
        invariant result == before + ConvertBlocks(college.blocks[..j], PrefixFor(college, useCollegePrefix), clock, |before|, hash)
      {
        var prefix := if useCollegePrefix then college.name else "";
        result := result + [BlockToLocationData(college.blocks[j], prefix, clock(|result|), hash)];
      }
      assert college.blocks[..|college.blocks|] == college.blocks;
      assert catalog[..i + 1][..i] == catalog[..i];
    }
    assert catalog[..|catalog|] == catalog;
  }

  lemma {:induction false} TotalBlocksPrefix(catalog: seq<College>, i: nat)
    requires i < |catalog|
    ensures TotalBlocks(catalog[..i]) + |catalog[i].blocks| <= TotalBlocks(catalog)
  {
    var n := |catalog| - 1;
    if i == n {
      assert catalog[..n] == catalog[..|catalog| - 1];
    } else {
      var init := catalog[..n];
      assert init[..i] == catalog[..i];
      TotalBlocksPrefix(init, i);
    }
  }

  /**
   * Record `TotalBlocks(catalog[..i]) + j` of the flattening is block j of
   * college i, prefixed as its college dictates, converted at that reading.
   */
  lemma {:induction false} AllLocationsAt(catalog: seq<College>, useCollegePrefix: bool, clock: nat -> int, hash: string -> int, i: nat, j: nat)
    requires i < |catalog| && j < |catalog[i].blocks|
    ensures TotalBlocks(catalog[..i]) + j < |AllLocations(catalog, useCollegePrefix, clock, hash)|
    ensures AllLocations(catalog, useCollegePrefix, clock, hash)[TotalBlocks(catalog[..i]) + j]
         == BlockToLocationData(catalog[i].blocks[j], PrefixFor(catalog[i], useCollegePrefix), clock(TotalBlocks(catalog[..i]) + j), hash)
  {
    TotalBlocksPrefix(catalog, i);
    var n := |catalog| - 1;
    var init := catalog[..n];
    if i == n {
      assert catalog[..i] == init;
    } else {
      assert init[..i] == catalog[..i];
      assert init[i] == catalog[i];
      AllLocationsAt(init, useCollegePrefix, clock, hash, i, j);
    }
  }

  /** The block that record `k` of the flattening comes from: college i, block j. */
  function BlockOrigin(catalog: seq<College>, k: nat): (ij: (nat, nat))
    requires k < TotalBlocks(catalog)
    ensures ij.0 < |catalog| && ij.1 < |catalog[ij.0].blocks|
    ensures k == TotalBlocks(catalog[..ij.0]) + ij.1
  {
    var n := |catalog| - 1;
    var init := catalog[..n];
    if k < TotalBlocks(init) then
      var ij := BlockOrigin(init, k);
      assert init[..ij.0] == catalog[..ij.0];
      ij
    else
      assert catalog[..n] == init;
      (n, k - TotalBlocks(init))
  }

  /**
   * Two positions (college i, block j) and (college i2, block j2) of the
   * flattening never share a record index: each record has one origin block.
   */
  lemma PositionsDistinct(catalog: seq<College>, i: nat, j: nat, i2: nat, j2: nat)
    requires i < |catalog| && j < |catalog[i].blocks|
    requires i2 < |catalog| && j2 < |catalog[i2].blocks|
    requires TotalBlocks(catalog[..i]) + j == TotalBlocks(catalog[..i2]) + j2
    ensures i == i2 && j == j2
  {
    CollegesBefore(catalog, i, i2);
    CollegesBefore(catalog, i2, i);
  }

  /** The blocks of college i all come before the records of any later college. */
  lemma CollegesBefore(catalog: seq<College>, i: nat, i2: nat)
    requires i < |catalog| && i2 <= |catalog|
    ensures i < i2 ==> TotalBlocks(catalog[..i]) + |catalog[i].blocks| <= TotalBlocks(catalog[..i2])
  {
    if i < i2 {
      TotalBlocksPrefix(catalog[..i2], i);
      assert catalog[..i2][..i] == catalog[..i];
    }
  }

  /** Every record of the flattening carries azimuth "0.0" and an empty image URL. */
  lemma AllLocationsFixedFields(catalog: seq<College>, useCollegePrefix: bool, clock: nat -> int, hash: string -> int)
    ensures forall r | r in AllLocations(catalog, useCollegePrefix, clock, hash) :: r.azimuth == "0.0" && r.imgUrl == ""
  {
    var all := AllLocations(catalog, useCollegePrefix, clock, hash);
    forall k | 0 <= k < |all| ensures all[k].azimuth == "0.0" && all[k].imgUrl == "" {
      var ij := BlockOrigin(catalog, k);
      AllLocationsAt(catalog, useCollegePrefix, clock, hash, ij.0, ij.1);
    }
  }

  /**
   * With the prefix on, every record of college C is named "C - <block>"
   * (unless C's name is empty); with it off, every record is named as its block.
   */
  lemma AllLocationsNames(catalog: seq<College>, useCollegePrefix: bool, clock: nat -> int, hash: string -> int, i: nat, j: nat)
    requires i < |catalog| && j < |catalog[i].blocks|
    ensures TotalBlocks(catalog[..i]) + j < |AllLocations(catalog, useCollegePrefix, clock, hash)|
    ensures var r := AllLocations(catalog, useCollegePrefix, clock, hash)[TotalBlocks(catalog[..i]) + j];
      && (useCollegePrefix && catalog[i].name != "" ==> r.name == catalog[i].name + " - " + catalog[i].blocks[j].name)
      && (!useCollegePrefix || catalog[i].name == "" ==> r.name == catalog[i].blocks[j].name)
      && r.description == catalog[i].blocks[j].name + " at " + catalog[i].blocks[j].latitude + ", " + catalog[i].blocks[j].longitude
  {
    AllLocationsAt(catalog, useCollegePrefix, clock, hash, i, j);
  }

  // ---------------------------------------------------------------------------
  // One college by name

  /** The index of the first college named `name`, as a linear `find` gives it. */
  function FindCollege(catalog: seq<College>, name: string): (r: Option<nat>)
    ensures r.None? <==> forall i | 0 <= i < |catalog| :: catalog[i].name != name
    ensures r.Some? ==> r.value < |catalog| && catalog[r.value].name == name
    ensures r.Some? ==> forall i | 0 <= i < r.value :: catalog[i].name != name
  {
    if catalog == [] then None
    else if catalog[0].name == name then Some(0)
    else
      match FindCollege(catalog[1..], name)
      case None => None
      case Some(i) => Some(i + 1)
  }

  /**
   * The records of the college named `collegeName`; none when there is no
   * such college. A non-empty result means that a college of that name exists
   * and the result has one record per block of it.
   */
  function GetCollegeLocations(catalog: seq<College>, collegeName: string, useCollegePrefix: bool, clock: nat -> int, hash: string -> int): (r: seq<LocationData>)
    ensures r != [] ==> exists i | 0 <= i < |catalog| :: catalog[i].name == collegeName && |r| == |catalog[i].blocks|
  {
    match FindCollege(catalog, collegeName)
    case None => []
    case Some(i) => ConvertBlocks(catalog[i].blocks, PrefixFor(catalog[i], useCollegePrefix), clock, 0, hash)
  }

  /** An unknown name is not an error: it gives the empty list. */
  lemma CollegeLocationsMiss(catalog: seq<College>, collegeName: string, useCollegePrefix: bool, clock: nat -> int, hash: string -> int)
    requires forall c | c in catalog :: c.name != collegeName
    ensures GetCollegeLocations(catalog, collegeName, useCollegePrefix, clock, hash) == []
  {
    assert forall i | 0 <= i < |catalog| :: catalog[i] in catalog;
  }

  /** The first college with the name gives its own blocks, in order, with its prefix. */
  lemma CollegeLocationsHit(catalog: seq<College>, i: nat, useCollegePrefix: bool, clock: nat -> int, hash: string -> int)
    requires i < |catalog|
    requires forall i' | 0 <= i' < i :: catalog[i'].name != catalog[i].name
    ensures var r := GetCollegeLocations(catalog, catalog[i].name, useCollegePrefix, clock, hash);
      && |r| == |catalog[i].blocks|
      && forall k | 0 <= k < |r| ::
           r[k] == BlockToLocationData(catalog[i].blocks[k], PrefixFor(catalog[i], useCollegePrefix), clock(k), hash)
  {
  }

  // ---------------------------------------------------------------------------
  // The flattening is the per-college lists, concatenated

  /** All clock readings of a run are equal. */
  ghost predicate Stopped(clock: nat -> int)
  {
    forall k: nat :: clock(k) == clock(0)
  }

  predicate DistinctNames(catalog: seq<College>)
  {
    forall i, j | 0 <= i < j < |catalog| :: catalog[i].name != catalog[j].name
  }

  /** `GetCollegeLocations` of each college in `colleges`, looked up in `catalog`, concatenated. */
  function PerCollege(catalog: seq<College>, colleges: seq<College>, useCollegePrefix: bool, clock: nat -> int, hash: string -> int): (records: seq<LocationData>)
  {
    if colleges == [] then []
    else
      PerCollege(catalog, colleges[..|colleges| - 1], useCollegePrefix, clock, hash)
        + GetCollegeLocations(catalog, colleges[|colleges| - 1].name, useCollegePrefix, clock, hash)
  }

  /** Under a stopped clock, where a run of conversions starts does not matter. */
  lemma ConvertBlocksStopped(blocks: seq<Block>, prefix: string, clock: nat -> int, from: nat, hash: string -> int)
    requires Stopped(clock)
    ensures ConvertBlocks(blocks, prefix, clock, from, hash) == ConvertBlocks(blocks, prefix, clock, 0, hash)
  {
    var a := ConvertBlocks(blocks, prefix, clock, from, hash);
    var b := ConvertBlocks(blocks, prefix, clock, 0, hash);
    forall k | 0 <= k < |blocks| ensures a[k] == b[k] {
      assert clock(from + k) == clock(0) == clock(k);
    }
  }

  lemma {:induction false} AllLocationsPrefixIsPerCollege(catalog: seq<College>, n: nat, useCollegePrefix: bool, clock: nat -> int, hash: string -> int)
    requires n <= |catalog| && DistinctNames(catalog) && Stopped(clock)
    ensures AllLocations(catalog[..n], useCollegePrefix, clock, hash) == PerCollege(catalog, catalog[..n], useCollegePrefix, clock, hash)
  {
    if n > 0 {
      AllLocationsPrefixIsPerCollege(catalog, n - 1, useCollegePrefix, clock, hash);
      var c := catalog[n - 1];
      assert catalog[..n][..n - 1] == catalog[..n - 1];
      ConvertBlocksStopped(c.blocks, PrefixFor(c, useCollegePrefix), clock, TotalBlocks(catalog[..n - 1]), hash);
      assert FindCollege(catalog, c.name) == Some(n - 1);
    }
  }

  /**
   * With distinct college names and a stopped clock, flattening the whole
   * catalog equals concatenating the per-college lists in catalog order.
   */
  lemma AllLocationsIsPerCollege(catalog: seq<College>, useCollegePrefix: bool, clock: nat -> int, hash: string -> int)
    requires DistinctNames(catalog) && Stopped(clock)
    ensures AllLocations(catalog, useCollegePrefix, clock, hash) == PerCollege(catalog, catalog, useCollegePrefix, clock, hash)
  {
    AllLocationsPrefixIsPerCollege(catalog, |catalog|, useCollegePrefix, clock, hash);
    assert catalog[..|catalog|] == catalog;
  }

  // ---------------------------------------------------------------------------
  // The predefined catalog

  /** Two colleges of 5 and 9 blocks, distinctly named: 14 records in all. */
  lemma CatalogShape(useCollegePrefix: bool, clock: nat -> int, hash: string -> int)
    ensures |Colleges| == 2 && |Colleges[0].blocks| == 5 && |Colleges[1].blocks| == 9
    ensures DistinctNames(Colleges)
    ensures |AllLocations(Colleges, useCollegePrefix, clock, hash)| == 14
  {
    assert Colleges[..1] == [Colleges[0]];
    assert Colleges[..1][..0] == [];
  }

  /**
   * "Civil Block" of MVGR College (record 4) and of GVPCE College (record 5)
   * get the same id under a stopped clock, although their names differ when prefixed.
   */
  lemma CivilBlockIdsCollide(clock: nat -> int, hash: string -> int)
    requires Stopped(clock)
    ensures var all := AllLocations(Colleges, true, clock, hash);
      && |all| == 14
      && all[4].name == "MVGR College - Civil Block"
      && all[5].name == "GVPCE College - Civil Block"
      && all[4].id == all[5].id
  {
    CatalogShape(true, clock, hash);
    assert Colleges[..0] == [];
    assert Colleges[..1] == [Colleges[0]];
    AllLocationsAt(Colleges, true, clock, hash, 0, 4);
    AllLocationsAt(Colleges, true, clock, hash, 1, 0);
  }

  /** The first MVGR College record, with the prefix on, taken at reading `clock(0)`. */
  lemma MvgrFirstRecord(clock: nat -> int, hash: string -> int)
    ensures var r := GetCollegeLocations(Colleges, "MVGR College", true, clock, hash);
      && |r| == 5
      && r[0] == LocationData(
           clock(0) + hash("Mechanical Block"),
           "MVGR College - Mechanical Block",
           "18.06035,83.40407",
           "0.0",
           "Mechanical Block at 18.06035, 83.40407",
           "")
  {
    var b := MvgrBlocks[0];
    assert Colleges[0].name == "MVGR College";
    assert FindCollege(Colleges, "MVGR College") == Some(0);
    var r0 := BlockToLocationData(b, "MVGR College", clock(0), hash);
    assert GetCollegeLocations(Colleges, "MVGR College", true, clock, hash)[0] == r0;
    assert r0.name == "MVGR College - Mechanical Block";
    assert r0.location == "18.06035,83.40407";
    assert r0.description == "Mechanical Block at 18.06035, 83.40407";
  }

  lemma UnknownCollegeIsEmpty(useCollegePrefix: bool, clock: nat -> int, hash: string -> int)
    ensures GetCollegeLocations(Colleges, "NonexistentName", useCollegePrefix, clock, hash) == []
  {
    CollegeLocationsMiss(Colleges, "NonexistentName", useCollegePrefix, clock, hash);
  }
}
