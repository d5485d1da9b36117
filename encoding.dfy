/**
 * From active sites to one-letter sequences: the residue table, the encoder
 * and the sequence pool (the list of encodings plus the dictionary from an
 * encoding back to its active site).  Both copies of the clustering code
 * carry this part verbatim.
 */
module Encoding {
  import opened Results

  /** A residue of an active site; only its three-letter type code is read. */
  datatype Residue = Residue(code: string)

  /** An active site: a name and its residues in order. */
  datatype Site = Site(name: string, residues: seq<Residue>)

  /** The closed table of three-letter codes: the twenty standard amino acids plus ASX and GLX. */
  const AminoTable: map<string, char> := map[
    "ALA" := 'A', "ARG" := 'R', "ASN" := 'N', "ASP" := 'D', "ASX" := 'B', "LEU" := 'L',
    "CYS" := 'C', "GLU" := 'E', "GLN" := 'Q', "GLX" := 'Z', "GLY" := 'G', "HIS" := 'H',
    "ILE" := 'I', "LYS" := 'K', "MET" := 'M', "PHE" := 'F', "PRO" := 'P', "SER" := 'S',
    "THR" := 'T', "TYR" := 'Y', "VAL" := 'V', "TRP" := 'W']

  predicate Known(r: Residue) {
    r.code in AminoTable
  }

  /** Position i holds the first residue whose code is not in the table. */
  ghost predicate FirstUnknown(residues: seq<Residue>, i: int) {
    0 <= i < |residues| && !Known(residues[i]) && forall j :: 0 <= j < i ==> Known(residues[j])
  }

  /**
   * The encoding of a residue sequence: one letter per residue, or the
   * KeyError raised at the first code outside the table.
   */
  function Encode(residues: seq<Residue>): (r: Result<string>)
    ensures r.Ok? <==> forall i :: 0 <= i < |residues| ==> Known(residues[i])
    ensures r.Ok? ==> |r.value| == |residues|
    ensures r.Ok? ==> forall i :: 0 <= i < |residues| ==> r.value[i] == AminoTable[residues[i].code]
    ensures r.Err? ==> exists i :: FirstUnknown(residues, i) && r.error == UnknownResidue(residues[i].code)
  {
    if residues == [] then Ok("")
    else if residues[0].code !in AminoTable then
      assert FirstUnknown(residues, 0);
      Err(UnknownResidue(residues[0].code))
    else
      match Encode(residues[1..])
      case Ok(rest) => Ok([AminoTable[residues[0].code]] + rest)
      case Err(e) =>
        ghost var i :| FirstUnknown(residues[1..], i) && e == UnknownResidue(residues[1..][i].code);
        assert FirstUnknown(residues, i + 1);
        Err(e)
  }

  /** No two codes of the table share a letter. */
  lemma TableInjective(c1: string, c2: string)
    requires c1 in AminoTable && c2 in AminoTable && AminoTable[c1] == AminoTable[c2]
    ensures c1 == c2
  {
    var back: map<char, string> := map[
      'A' := "ALA", 'R' := "ARG", 'N' := "ASN", 'D' := "ASP", 'B' := "ASX", 'L' := "LEU",
      'C' := "CYS", 'E' := "GLU", 'Q' := "GLN", 'Z' := "GLX", 'G' := "GLY", 'H' := "HIS",
      'I' := "ILE", 'K' := "LYS", 'M' := "MET", 'F' := "PHE", 'P' := "PRO", 'S' := "SER",
      'T' := "THR", 'Y' := "TYR", 'V' := "VAL", 'W' := "TRP"];
    assert AminoTable[c1] in back && back[AminoTable[c1]] == c1;
    assert AminoTable[c2] in back && back[AminoTable[c2]] == c2;
  }

  /** The table is injective on all its codes at once. */
  lemma TableInjectiveAll()
    ensures forall c1, c2 :: c1 in AminoTable && c2 in AminoTable && AminoTable[c1] == AminoTable[c2] ==> c1 == c2
  {
    forall c1, c2 | c1 in AminoTable && c2 in AminoTable && AminoTable[c1] == AminoTable[c2]
      ensures c1 == c2
    {
      TableInjective(c1, c2);
    }
  }

  /**
   * The encoding loses nothing: two residue sequences with the same encoding
   * have the same residue types.  So two sites collide in the pool's
   * dictionary exactly when their residue types agree.
   */
  lemma {:induction false} EncodeInjective(a: seq<Residue>, b: seq<Residue>)
    requires Encode(a).Ok? && Encode(b).Ok? && Encode(a) == Encode(b)
    ensures a == b
  {
    forall i | 0 <= i < |a|
      ensures a[i] == b[i]
    {
      TableInjective(a[i].code, b[i].code);
    }
  }

  /** The encoder as the Python writes it: a loop that appends one letter per residue. */
  method ConvertToAaStr(sequence: seq<Residue>) returns (r: Result<string>)
    ensures r == Encode(sequence)
  {
    var aaSeq := "";
    for t := 0 to |sequence|
      invariant |aaSeq| == t
      invariant forall i :: 0 <= i < t ==> Known(sequence[i]) && aaSeq[i] == AminoTable[sequence[i].code]
    {
      var code := sequence[t].code;
      if code !in AminoTable {
        assert FirstUnknown(sequence, t);
        return Err(UnknownResidue(code));
      }
      aaSeq := aaSeq + [AminoTable[code]];
    }
    assert Encode(sequence).value == aaSeq;
    return Ok(aaSeq);
  }

  ghost predicate AllEncodable(sites: seq<Site>) {
    forall i :: 0 <= i < |sites| ==> Encode(sites[i].residues).Ok?
  }

  /** The encodings of the sites, in site order. */
  ghost function Encodings(sites: seq<Site>): (strs: seq<string>)
    requires AllEncodable(sites)
    ensures |strs| == |sites|
    ensures forall i :: 0 <= i < |sites| ==> Encode(sites[i].residues) == Ok(strs[i])
  {
    seq(|sites|, i requires 0 <= i < |sites| => Encode(sites[i].residues).value)
  }

  /** Position i holds the first site whose residues cannot be encoded. */
  ghost predicate FirstUnencodable(sites: seq<Site>, i: int) {
    0 <= i < |sites| && Encode(sites[i].residues).Err? &&
    forall j :: 0 <= j < i ==> Encode(sites[j].residues).Ok?
  }

  /** site is the LAST of the first n sites whose encoding is s. */
  ghost predicate LastWithin(sites: seq<Site>, n: int, s: string, site: Site)
    requires n <= |sites|
  {
    exists i :: 0 <= i < n && sites[i] == site && Encode(site.residues) == Ok(s) &&
      forall j :: i < j < n ==> Encode(sites[j].residues) != Ok(s)
  }

  /** site is the LAST of sites whose encoding is s: the dictionary entry that survives. */
  ghost predicate LastWith(sites: seq<Site>, s: string, site: Site) {
    LastWithin(sites, |sites|, s, site)
  }

  /** strs and seqDict are the pool built from sites. */
  ghost predicate IsPool(sites: seq<Site>, strs: seq<string>, seqDict: map<string, Site>) {
    && AllEncodable(sites)
    && strs == Encodings(sites)
    && (forall s :: s in seqDict <==> s in strs)
    && (forall s :: s in seqDict ==> LastWith(sites, s, seqDict[s]))
  }

  /** One iteration of the dictionary loop keeps every entry the last site with its key. */
  lemma DictStep(sites: seq<Site>, t: nat, seqDict: map<string, Site>, e: string, next: map<string, Site>)
    requires t < |sites| && Encode(sites[t].residues) == Ok(e)
    requires forall s :: s in seqDict ==> LastWithin(sites, t, s, seqDict[s])
    requires next == seqDict[e := sites[t]]
    ensures forall s :: s in next ==> LastWithin(sites, t + 1, s, next[s])
  {
    forall s | s in next
      ensures LastWithin(sites, t + 1, s, next[s])
    {
      if s != e {
        var i :| 0 <= i < t && sites[i] == seqDict[s] && Encode(seqDict[s].residues) == Ok(s) &&
          forall j :: i < j < t ==> Encode(sites[j].residues) != Ok(s);
        assert forall j :: i < j < t + 1 ==> Encode(sites[j].residues) != Ok(s);
      }
    }
  }

  /**
   * The sequence pool: the encodings in the order of the sites, and a
   * dictionary from each encoding to the last site that has it.
   */
  method GetAaSeq(activeSites: seq<Site>) returns (r: Result<(seq<string>, map<string, Site>)>)
    ensures r.Ok? <==> AllEncodable(activeSites)
    ensures r.Err? ==> exists i :: FirstUnencodable(activeSites, i) && r.error == Encode(activeSites[i].residues).error
    ensures r.Ok? ==> IsPool(activeSites, r.value.0, r.value.1)
  {
    var seqDict: map<string, Site> := map[];
    ghost var seen: seq<string> := [];
    for t := 0 to |activeSites|
      invariant |seen| == t
      invariant forall i :: 0 <= i < t ==> Encode(activeSites[i].residues) == Ok(seen[i])
      invariant forall s :: s in seqDict <==> s in seen
      invariant forall s :: s in seqDict ==> LastWithin(activeSites, t, s, seqDict[s])
    {
      var e := ConvertToAaStr(activeSites[t].residues);
      if e.Err? {
        assert FirstUnencodable(activeSites, t);
        return Err(e.error);
      }
      DictStep(activeSites, t, seqDict, e.value, seqDict[e.value := activeSites[t]]);
      seqDict := seqDict[e.value := activeSites[t]];
      seen := seen + [e.value];
    }
    var strs: seq<string> := [];
    for t := 0 to |activeSites|
      invariant |strs| == t
      invariant forall i :: 0 <= i < t ==> Encode(activeSites[i].residues) == Ok(strs[i])
    {
      var e := ConvertToAaStr(activeSites[t].residues);
      strs := strs + [e.value];
    }
    assert strs == seen;
    return Ok((strs, seqDict));
  }

  /** objs has the shape of clusters, and each entry is the site its sequence resolves to. */
  ghost predicate Resolved(sites: seq<Site>, clusters: seq<seq<string>>, objs: seq<seq<Site>>) {
    && |objs| == |clusters|
    && forall i :: 0 <= i < |clusters| ==>
         |objs[i]| == |clusters[i]| &&
         forall j :: 0 <= j < |clusters[i]| ==> LastWith(sites, clusters[i][j], objs[i][j])
  }

  /** Replace every sequence of a clustering by its site (a nested list comprehension). */
  function ToSites2D(clusters: seq<seq<string>>, seqDict: map<string, Site>): (r: seq<seq<Site>>)
    requires forall i, x :: 0 <= i < |clusters| && x in clusters[i] ==> x in seqDict
    ensures |r| == |clusters|
    ensures forall i :: 0 <= i < |clusters| ==> |r[i]| == |clusters[i]|
  {
    seq(|clusters|, i requires 0 <= i < |clusters| =>
      seq(|clusters[i]|, j requires 0 <= j < |clusters[i]| => seqDict[clusters[i][j]]))
  }

  /**
   * Looking sequences up in the pool's dictionary gives back, for each
   * sequence, the last site that encodes to it.
   */
  lemma ToSitesResolves(sites: seq<Site>, strs: seq<string>, seqDict: map<string, Site>, clusters: seq<seq<string>>)
    requires IsPool(sites, strs, seqDict)
    requires forall i, x :: 0 <= i < |clusters| && x in clusters[i] ==> x in strs
    ensures Resolved(sites, clusters, ToSites2D(clusters, seqDict))
  {
    var objs := ToSites2D(clusters, seqDict);
    forall i, j | 0 <= i < |clusters| && 0 <= j < |clusters[i]|
      ensures LastWith(sites, clusters[i][j], objs[i][j])
    {
      assert clusters[i][j] in clusters[i];
    }
  }
}
