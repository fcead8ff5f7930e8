/** The online catalog's packages, as the Package Center reads them. */
module Packages {

  datatype Package = Package(
    id: string,
    name: string,
    version: string,
    beta: bool,
    size: int,
    downloadLink: string,
    checksum: string,
    quickInstall: bool,
    dependencies: seq<string>)

  // One best offer per package id.
  type Offers = map<string, Package>

  predicate KeyedById(offered: Offers) {
    forall id :: id in offered ==> offered[id].id == id
  }
}
