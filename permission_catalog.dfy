/**
  The Permissions-Policy catalog (`PermissionPolicies`): the initial state of
  the table the Permissions-Policy evaluator mutates. Each entry keeps its
  name, recommended allow-list, risk level and risk score; its prose is not
  transcribed.
 */
module PermissionCatalog {
  import opened Dto
  import PolicyValue

  const PermissionPolicies: seq<Directive> := [
      /*  0, lines 6-19 */ CatalogEntry("accelerometer", [PolicyValue.Disallowed], High, 8),
      /*  1, lines 20-33 */ CatalogEntry("ambient-light-sensor", [PolicyValue.Disallowed], Medium, 6),
      /*  2, lines 34-47 */ CatalogEntry("autoplay", [PolicyValue.Allowed], Low, 2),
      /*  3, lines 48-61 */ CatalogEntry("bluetooth", [PolicyValue.Disallowed], High, 9),
      /*  4, lines 62-75 */ CatalogEntry("browsing-topics", [PolicyValue.Disallowed], Medium, 5),
      /*  5, lines 76-89 */ CatalogEntry("camera", [PolicyValue.Disallowed], High, 10),
      /*  6, lines 90-101 */ CatalogEntry("accelerometer", [PolicyValue.Disallowed], High, 8),
      /*  7, lines 102-113 */ CatalogEntry("display-capture", [PolicyValue.Disallowed], High, 9),
      /*  8, lines 114-125 */ CatalogEntry("document-domain", [PolicyValue.Disallowed], Medium, 5),
      /*  9, lines 126-137 */ CatalogEntry("encrypted-media", [PolicyValue.Allowed], Low, 3),
      /* 10, lines 138-149 */ CatalogEntry("fullscreen", [PolicyValue.Allowed], Low, 2),
      /* 11, lines 150-161 */ CatalogEntry("gamepad", [PolicyValue.Allowed], Low, 3),
      /* 12, lines 162-173 */ CatalogEntry("geolocation", [PolicyValue.Disallowed], High, 10),
      /* 13, lines 174-185 */ CatalogEntry("gyroscope", [PolicyValue.Disallowed], High, 8),
      /* 14, lines 186-197 */ CatalogEntry("hid", [PolicyValue.Disallowed], High, 7),
      /* 15, lines 198-209 */ CatalogEntry("identity-credentials-get", [PolicyValue.Disallowed], High, 9),
      /* 16, lines 210-221 */ CatalogEntry("idle-detection", [PolicyValue.Disallowed], Medium, 6),
      /* 17, lines 222-233 */ CatalogEntry("local-fonts", [PolicyValue.Disallowed], Medium, 6),
      /* 18, lines 234-245 */ CatalogEntry("magnetometer", [PolicyValue.Disallowed], Medium, 7),
      /* 19, lines 246-257 */ CatalogEntry("microphone", [PolicyValue.Disallowed], High, 10),
      /* 20, lines 258-269 */ CatalogEntry("midi", [PolicyValue.Disallowed], Medium, 5),
      /* 21, lines 270-281 */ CatalogEntry("otp-credentials", [PolicyValue.Disallowed], High, 9),
      /* 22, lines 282-293 */ CatalogEntry("payment", [PolicyValue.Disallowed], High, 8),
      /* 23, lines 294-305 */ CatalogEntry("picture-in-picture", [PolicyValue.Allowed], Low, 2),
      /* 24, lines 306-317 */ CatalogEntry("publickey-credentials-create", [PolicyValue.Disallowed], High, 8),
      /* 25, lines 318-329 */ CatalogEntry("publickey-credentials-get", [PolicyValue.Disallowed], High, 8),
      /* 26, lines 330-341 */ CatalogEntry("screen-wake-lock", [PolicyValue.Disallowed], Low, 3),
      /* 27, lines 342-353 */ CatalogEntry("serial", [PolicyValue.Disallowed], High, 8),
      /* 28, lines 354-365 */ CatalogEntry("speaker-selection", [PolicyValue.Disallowed], High, 6),
      /* 29, lines 366-377 */ CatalogEntry("storage-access", [PolicyValue.Disallowed], High, 8),
      /* 30, lines 378-389 */ CatalogEntry("usb", [PolicyValue.Disallowed], High, 8),
      /* 31, lines 390-401 */ CatalogEntry("web-share", [PolicyValue.Disallowed], Low, 4),
      /* 32, lines 402-413 */ CatalogEntry("window-management", [PolicyValue.Disallowed], Medium, 5),
      /* 33, lines 414-423 */ CatalogEntry("xr-spatial-tracking", [PolicyValue.Disallowed], High, 7)
    ]

  /** Every entry is at one of the three levels the popup orders and counts. */
  lemma LevelsDeclared()
    ensures forall i :: 0 <= i < |PermissionPolicies| ==> PermissionPolicies[i].riskLevel in [High, Medium, Low]
  {
  }

  /** Every entry starts with nothing observed. */
  lemma StartsUnobserved()
    ensures forall i :: 0 <= i < |PermissionPolicies| ==> PermissionPolicies[i].value == []
  {
  }

  /** Every entry recommends exactly one token, either `()` or `*`. */
  lemma RecommendsOneMarker()
    ensures forall i :: 0 <= i < |PermissionPolicies| ==>
      PermissionPolicies[i].recommended == [PolicyValue.Disallowed]
      || PermissionPolicies[i].recommended == [PolicyValue.Allowed]
  {
  }

  /** `accelerometer` is declared twice, at positions 0 and 6. */
  lemma AccelerometerDeclaredTwice()
    ensures PermissionPolicies[0].name == PermissionPolicies[6].name == "accelerometer"
  {
  }

  /** The entries the scenario lemmas read, as declared. */
  lemma AutoplayEntry()
    ensures PermissionPolicies[2] == CatalogEntry("autoplay", [PolicyValue.Allowed], Low, 2)
  {
  }

  lemma CameraEntry()
    ensures PermissionPolicies[5] == CatalogEntry("camera", [PolicyValue.Disallowed], High, 10)
  {
  }

  lemma MicrophoneEntry()
    ensures PermissionPolicies[19] == CatalogEntry("microphone", [PolicyValue.Disallowed], High, 10)
  {
  }
}
