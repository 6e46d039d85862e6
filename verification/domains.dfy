/** The fixed table from a domain family to its directory on the device,
    every entry built below the backup root `private/var`. The table is a
    constant: lookups into it are pure. */
module Domains {
  import opened Wrappers
  import opened PurePaths

  const BackupRoot: Segments := ["private", "var"]

  /** The keys of the table, in the order they are written. */
  const Families: seq<string> := [
    "AppDomain", "AppDomainGroup", "AppDomainPlugin", "SysContainerDomain",
    "SysSharedContainerDomain", "KeychainDomain", "CameraRollDomain", "MobileDeviceDomain",
    "WirelessDomain", "InstallDomain", "KeyboardDomain", "HomeDomain",
    "SystemPreferencesDomain", "DatabaseDomain", "TonesDomain", "RootDomain",
    "BooksDomain", "ManagedPreferencesDomain", "HomeKitDomain", "MediaDomain",
    "HealthDomain"
  ]

  /** `DOMAIN_TRANSLATION.get(family)`: the directory of a known family,
      which always lies below `private/var` and is spelled in plain names. */
  function Lookup(family: string): (r: Option<Segments>)
    ensures r.Some? ==> |r.value| >= 3 && r.value[..2] == BackupRoot
  {
    match family
    case "AppDomain" => Some(["private", "var", "mobile", "Containers", "Data", "Application"])
    case "AppDomainGroup" => Some(["private", "var", "mobile", "Containers", "Shared", "AppGroup"])
    case "AppDomainPlugin" => Some(["private", "var", "mobile", "Containers", "Data", "PluginKitPlugin"])
    case "SysContainerDomain" => Some(["private", "var", "containers", "Data", "System"])
    case "SysSharedContainerDomain" => Some(["private", "var", "containers", "Shared", "SystemGroup"])
    case "KeychainDomain" => Some(["private", "var", "Keychains"])
    case "CameraRollDomain" => Some(["private", "var", "mobile"])
    case "MobileDeviceDomain" => Some(["private", "var", "MobileDevice"])
    case "WirelessDomain" => Some(["private", "var", "wireless"])
    case "InstallDomain" => Some(["private", "var", "installd"])
    case "KeyboardDomain" => Some(["private", "var", "mobile"])
    case "HomeDomain" => Some(["private", "var", "mobile"])
    case "SystemPreferencesDomain" => Some(["private", "var", "preferences"])
    case "DatabaseDomain" => Some(["private", "var", "db"])
    case "TonesDomain" => Some(["private", "var", "mobile"])
    case "RootDomain" => Some(["private", "var", "root"])
    case "BooksDomain" => Some(["private", "var", "mobile", "Media", "Books"])
    case "ManagedPreferencesDomain" => Some(["private", "var", "Managed Preferences"])
    case "HomeKitDomain" => Some(["private", "var", "mobile"])
    case "MediaDomain" => Some(["private", "var", "mobile"])
    case "HealthDomain" => Some(["private", "var", "mobile", "Library"])
    case _ => None
  }

  /** The table as a dictionary: one key per family, mapped to its directory. */
  const DomainTranslation: map<string, Segments> :=
    map k | k in Families && Lookup(k).Some? :: Lookup(k).value

  /** The dictionary holds exactly what `Lookup` finds. */
  lemma InTable(family: string)
    ensures family in DomainTranslation <==> Lookup(family).Some?
    ensures family in DomainTranslation ==> DomainTranslation[family] == Lookup(family).value
  {
    FamiliesKnown();
  }

  /** No known family contains `-`. */
  lemma KnownWithoutDash(family: string)
    requires Lookup(family).Some?
    ensures '-' !in family
  {
    FamiliesKnown();
    FamiliesWithoutDash();
    var i :| 0 <= i < |Families| && Families[i] == family;
  }

  /** The families listed are exactly the keys `Lookup` knows. */
  lemma FamiliesKnown()
    ensures forall k :: Lookup(k).Some? <==> k in Families
  {
    forall k
      ensures Lookup(k).Some? <==> k in Families
    {
      if Lookup(k).Some? {
        KnownListed(k);
      }
      if k in Families {
        var i :| 0 <= i < |Families| && Families[i] == k;
        ListedKnown(i);
      }
    }
  }

  /** One direction of `FamiliesKnown`, kept apart so that the 21-way case
      split on `Lookup` is done once per direction. */
  lemma KnownListed(k: string)
    requires Lookup(k).Some?
    ensures k in Families
  {
  }

  /** The other direction of `FamiliesKnown`, by position in the list. */
  lemma ListedKnown(i: nat)
    requires i < |Families|
    ensures Lookup(Families[i]).Some?
  {
  }

  predicate Distinct(keys: seq<string>) {
    forall i, j :: 0 <= i < j < |keys| ==> keys[i] != keys[j]
  }

  /** A list without repetitions has as many distinct elements as entries. */
  lemma {:induction false} DistinctCard(keys: seq<string>)
    requires Distinct(keys)
    ensures |set k | k in keys| == |keys|
    decreases |keys|
  {
    if |keys| > 0 {
      var n := |keys| - 1;
      DistinctCard(keys[..n]);
      assert (set k | k in keys) == (set k | k in keys[..n]) + {keys[n]};
      assert keys[n] !in (set k | k in keys[..n]);
    }
  }

  /** The family list has 21 entries, all different. */
  lemma FamiliesDistinct()
    ensures |Families| == 21
    ensures Distinct(Families)
  {
    FamiliesPairwise();
  }

  /** The pairwise comparison behind `FamiliesDistinct`, stated on the list
      itself so that it is checked without unfolding `Distinct`. */
  lemma FamiliesPairwise()
    ensures forall i, j :: 0 <= i < j < |Families| ==> Families[i] != Families[j]
  {
  }

  /** The segment names the table's directories are made of. */
  const Vocabulary: seq<string> := [
    "private", "var", "mobile", "Containers", "Data", "Application", "Shared", "AppGroup",
    "PluginKitPlugin", "containers", "System", "SystemGroup", "Keychains", "MobileDevice",
    "wireless", "installd", "preferences", "db", "root", "Media", "Books",
    "Managed Preferences", "Library"
  ]

  /** Every vocabulary word is a plain name: a step of `DirectoryNames`. */
  lemma VocabularyNames()
    ensures forall i :: 0 <= i < |Vocabulary| ==> IsName(Vocabulary[i])
  {
  }

  /** Every table directory is spelled with vocabulary words: the other
      step of `DirectoryNames`. */
  lemma DirectoriesFromVocabulary(family: string)
    ensures Lookup(family).Some? ==> forall i :: 0 <= i < |Lookup(family).value| ==> Lookup(family).value[i] in Vocabulary
  {
  }

  /** Every segment of a table directory is a plain name. */
  lemma DirectoryNames(family: string)
    ensures Lookup(family).Some? ==> AllNames(Lookup(family).value)
  {
    VocabularyNames();
    DirectoriesFromVocabulary(family);
  }

  /** No listed family contains `-`. The list is checked in three ranges of
      seven by the lemmas below, so that each check stays small. */
  lemma FamiliesWithoutDash()
    ensures forall i :: 0 <= i < |Families| ==> '-' !in Families[i]
  {
    forall i | 0 <= i < |Families|
      ensures '-' !in Families[i]
    {
      if i < 7 {
        FirstFamiliesWithoutDash(i);
      } else if i < 14 {
        MiddleFamiliesWithoutDash(i);
      } else {
        LastFamiliesWithoutDash(i);
      }
    }
  }

  /** Part of `FamiliesWithoutDash`: the first seven families. */
  lemma FirstFamiliesWithoutDash(i: nat)
    requires i < 7
    ensures '-' !in Families[i]
  {
  }

  /** Part of `FamiliesWithoutDash`: families eight to fourteen. */
  lemma MiddleFamiliesWithoutDash(i: nat)
    requires 7 <= i < 14
    ensures '-' !in Families[i]
  {
  }

  /** Part of `FamiliesWithoutDash`: the last seven families. */
  lemma LastFamiliesWithoutDash(i: nat)
    requires 14 <= i < |Families|
    ensures '-' !in Families[i]
  {
  }

  /** Every directory in the table starts with `private/var` and consists of
      plain names, so appending to it never climbs out of it lexically. */
  lemma TableShape()
    ensures forall k :: k in DomainTranslation <==> Lookup(k).Some?
    ensures forall k :: k in DomainTranslation ==>
      DomainTranslation[k] == Lookup(k).value &&
      |DomainTranslation[k]| >= 3 && DomainTranslation[k][..2] == BackupRoot && AllNames(DomainTranslation[k])
  {
    FamiliesKnown();
    forall k | k in DomainTranslation
      ensures AllNames(DomainTranslation[k])
    {
      DirectoryNames(k);
    }
  }

  /** The table has exactly 21 families and no family name contains `-`. */
  lemma TableKeys()
    ensures |DomainTranslation| == 21
    ensures forall k :: k in DomainTranslation ==> '-' !in k
  {
    FamiliesKnown();
    FamiliesDistinct();
    FamiliesWithoutDash();
    DistinctCard(Families);
    assert DomainTranslation.Keys == set k | k in Families;
  }

  /** The directories of the families most entries of a backup belong to. */
  lemma KnownDirectories()
    ensures Lookup("AppDomain") == Some(["private", "var", "mobile", "Containers", "Data", "Application"])
    ensures Lookup("HealthDomain") == Some(["private", "var", "mobile", "Library"])
    ensures Lookup("KeychainDomain") == Some(["private", "var", "Keychains"])
    ensures Lookup("HomeDomain") == Some(["private", "var", "mobile"])
    ensures Lookup("CameraRollDomain") == Some(["private", "var", "mobile"])
    ensures Lookup("KeyboardDomain") == Some(["private", "var", "mobile"])
    ensures Lookup("TonesDomain") == Some(["private", "var", "mobile"])
    ensures Lookup("HomeKitDomain") == Some(["private", "var", "mobile"])
    ensures Lookup("MediaDomain") == Some(["private", "var", "mobile"])
  {
  }
}
