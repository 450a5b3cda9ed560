/** Result codes of the AFP protocol and of the client, under the protocol's names. */
module Codes {
  const kFPNoErr := 0
  const kFPAccessDenied := -5000
  const kFPBitmapErr := -5004
  const kFPDirNotEmpty := -5007
  const kFPEOFErr := -5009
  const kFPLockErr := -5013
  const kFPMiscErr := -5014
  const kFPObjectExists := -5017
  const kFPObjectNotFound := -5018
  const kFPParamErr := -5019
  const kFPCallNotSupported := -5024
  const kFPObjectTypeErr := -5025
  const kFPDirNotFound := -5029
  const kFPVolLocked := -5031
  const kFPObjectLocked := -5032

  const EIO := 5
  const EACCES := 13
  const EBUSY := 16
}
