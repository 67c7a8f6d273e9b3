/**
 * The read-only reference data the prefix engine consumes: the browser
 * catalog (known versions, vendor prefix, key in the compatibility feed) and
 * the last-prefixed-version table for properties and function names.
 * Enumerations are identified by their ordinal.
 */
module BrowserData {

  /** A browser of the browser enumeration, by ordinal. */
  datatype Browser = Browser(ordinal: nat)

  /** A vendor prefix of the prefix enumeration, by ordinal. */
  datatype Prefix = Prefix(ordinal: nat)

  /** A CSS property of the property enumeration, by ordinal. */
  datatype Property = Property(ordinal: nat)

  /**
   * The browser catalog. `versions(b)` lists the known versions of `b`,
   * newest first, so `versions(b)[0]` is the current version; `prefix(b)` is
   * the vendor prefix `b` uses; `key(b)` names `b` in the compatibility feed;
   * `prefixCount` is the number of constants of the prefix enumeration.
   */
  datatype Catalog = Catalog(
    versions: Browser -> seq<real>,
    prefix: Browser -> Prefix,
    key: Browser -> string,
    prefixCount: nat)
  {
    /** Every browser has a current version and a prefix of the enumeration. */
    ghost predicate Valid() {
      forall b :: |versions(b)| > 0 && prefix(b).ordinal < prefixCount
    }
  }

  /**
   * The last-prefixed-version table: for a property (or function name) and a
   * browser, the last version of that browser that still needed the vendor
   * prefix; `hasProperty`/`hasFunction` tell whether the table knows the
   * property or function at all.
   */
  datatype PrefixInfo = PrefixInfo(
    propertyVersion: Property -> Browser -> real,
    hasProperty: Property -> bool,
    functionVersion: string -> Browser -> real,
    hasFunction: string -> bool)
}
